/** The class hierarchy behind a link model, and what JVMS 5.4.3.2 to 5.4.3.4 look for in it. */
module ClassHierarchy {
  import opened Common
  import opened LinkModel

  function Loaded(links: Links, n: Name): bool {
    Load(links, n).Some?
  }

  function Interfaces(links: Links, n: Name): seq<Name> {
    if Loaded(links, n) then Load(links, n).value.interfaces else []
  }

  function SuperOf(links: Links, n: Name): Option<Name> {
    if Loaded(links, n) then Load(links, n).value.superName else None
  }

  predicate Parent(links: Links, n: Name, p: Name) {
    p in Interfaces(links, n) || SuperOf(links, n) == Some(p)
  }

  /** t is the class n or a supertype of it, at most k steps up, through classes that load. */
  ghost predicate SupertypeWithin(links: Links, n: Name, t: Name, k: nat)
    decreases k
  {
    Loaded(links, n) &&
    (Canonical(n) == Canonical(t) || (k > 0 && exists p :: Parent(links, n, p) && SupertypeWithin(links, p, t, k - 1)))
  }

  ghost predicate Supertype(links: Links, n: Name, t: Name) {
    exists k: nat :: SupertypeWithin(links, n, t, k)
  }

  lemma SupertypeSelf(links: Links, n: Name)
    requires Loaded(links, n)
    ensures Supertype(links, n, n)
  {
    assert SupertypeWithin(links, n, n, 0);
  }

  lemma SupertypeUp(links: Links, n: Name, p: Name, t: Name)
    requires Loaded(links, n) && Parent(links, n, p) && Supertype(links, p, t)
    ensures Supertype(links, n, t)
  {
    var k: nat :| SupertypeWithin(links, p, t, k);
    assert SupertypeWithin(links, n, t, k + 1);
  }

  lemma {:induction false} SupertypeThen(links: Links, n: Name, s: Name, p: Name, k: nat)
    requires SupertypeWithin(links, n, s, k) && Parent(links, s, p) && Loaded(links, p)
    ensures Supertype(links, n, p)
    decreases k
  {
    if Canonical(n) == Canonical(s) {
      CanonicalLoads(links, n);
      CanonicalLoads(links, s);
      SupertypeSelf(links, p);
      SupertypeUp(links, n, p, p);
    } else {
      var q :| Parent(links, n, q) && SupertypeWithin(links, q, s, k - 1);
      SupertypeThen(links, q, s, p, k - 1);
      SupertypeUp(links, n, q, p);
    }
  }

  /** Supertypes of n other than the class n itself are supertypes of a parent. */
  lemma SupertypeSplit(links: Links, n: Name, t: Name) returns (p: Name)
    requires Supertype(links, n, t) && Canonical(t) != Canonical(n)
    ensures Parent(links, n, p) && Loaded(links, p) && Supertype(links, p, t)
  {
    var k: nat :| SupertypeWithin(links, n, t, k);
    p :| Parent(links, n, p) && SupertypeWithin(links, p, t, k - 1);
  }

  predicate Step(s: Name, p: Name) { true }

  /** Nothing above n forms a cycle: a rank falls from every supertype of n to its parents. */
  ghost predicate Ranked(links: Links, rank: Name -> nat, n: Name) {
    forall s: Name, p: Name {:trigger Step(s, p)} ::
      Supertype(links, n, s) && Parent(links, s, p) && Loaded(links, p) ==> rank(p) < rank(s)
  }

  lemma RankFalls(links: Links, rank: Name -> nat, n: Name, p: Name)
    requires Ranked(links, rank, n) && Parent(links, n, p) && Loaded(links, p)
    ensures rank(p) < rank(n) && Ranked(links, rank, p)
  {
    SupertypeSelf(links, n);
    assert Step(n, p);
    forall s: Name, q: Name | Supertype(links, p, s) && Parent(links, s, q) && Loaded(links, q)
      ensures rank(q) < rank(s)
    {
      SupertypeUp(links, n, p, s);
      assert Step(s, q);
    }
  }

  // ------------------------------------------------------ superinterfaces

  function Declared(links: Links, n: Name, key: string): Option<Member> {
    if Loaded(links, n) && key in Load(links, n).value.methods then Some(Load(links, n).value.methods[key]) else None
  }

  /** The member that n contributes to its implementors. */
  function Offered(links: Links, n: Name, key: string): Option<Member> {
    var d := Declared(links, n, key);
    if d.Some? && !d.value.isPrivate && !d.value.isStatic then d else None
  }

  /** The search without a visited set: the superinterfaces of n, depth first, then of its superclass. */
  ghost function PlainChain(links: Links, rank: Name -> nat, n: Name, key: string): Option<Member>
    requires Ranked(links, rank, n) && Loaded(links, n)
    decreases rank(n), 1, 0
  {
    var r := PlainList(links, rank, n, Interfaces(links, n), key);
    var s := SuperOf(links, n);
    if r.Some? then r
    else if s.Some? && Loaded(links, s.value) then
      RankFalls(links, rank, n, s.value);
      PlainChain(links, rank, s.value, key)
    else None
  }

  ghost function PlainList(links: Links, rank: Name -> nat, n: Name, parents: seq<Name>, key: string): Option<Member>
    requires Ranked(links, rank, n) && forall p :: p in parents ==> Parent(links, n, p)
    decreases rank(n), 0, |parents|
  {
    if parents == [] then None
    else
      var p := parents[0];
      var found := PlainOne(links, rank, n, p, key);
      if found.Some? then found else PlainList(links, rank, n, parents[1..], key)
  }

  ghost function PlainOne(links: Links, rank: Name -> nat, n: Name, p: Name, key: string): Option<Member>
    requires Ranked(links, rank, n) && Parent(links, n, p)
    decreases rank(n), 0, 0
  {
    if !Loaded(links, p) then None
    else if Offered(links, p, key).Some? then Offered(links, p, key)
    else
      RankFalls(links, rank, n, p);
      PlainChain(links, rank, p, key)
  }

  /** t is a direct interface of n or of one of its supertypes, and it loads. */
  ghost predicate Superinterface(links: Links, n: Name, t: Name) {
    Loaded(links, t) && exists s :: Supertype(links, n, s) && t in Interfaces(links, s)
  }

  lemma SuperinterfaceUp(links: Links, n: Name, p: Name, t: Name)
    requires Loaded(links, n) && Parent(links, n, p) && Superinterface(links, p, t)
    ensures Superinterface(links, n, t)
  {
    var s :| Supertype(links, p, s) && t in Interfaces(links, s);
    SupertypeUp(links, n, p, s);
  }

  /** A superinterface of n is its own interface or a superinterface of a parent. */
  lemma SuperinterfaceSplit(links: Links, n: Name, t: Name) returns (p: Name)
    requires Superinterface(links, n, t) && t !in Interfaces(links, n)
    ensures Parent(links, n, p) && Loaded(links, p) && Superinterface(links, p, t)
  {
    var u :| Supertype(links, n, u) && t in Interfaces(links, u);
    CanonicalLoads(links, u);
    CanonicalLoads(links, n);
    p := SupertypeSplit(links, n, u);
  }

  /** JVMS 5.4.3.3 and 5.4.3.4: the search finds a member exactly when some superinterface offers one,
      and what it finds is offered by a superinterface. */
  lemma {:induction false} PlainFinds(links: Links, rank: Name -> nat, n: Name, key: string)
    requires Ranked(links, rank, n) && Loaded(links, n)
    ensures var r := PlainChain(links, rank, n, key);
      if r.Some? then exists t :: Superinterface(links, n, t) && Offered(links, t, key) == r
      else forall t :: Superinterface(links, n, t) ==> Offered(links, t, key) == None
    decreases rank(n), 1, 0
  {
    var r := PlainChain(links, rank, n, key);
    PlainListFinds(links, rank, n, Interfaces(links, n), key);
    var s := SuperOf(links, n);
    var inList := PlainList(links, rank, n, Interfaces(links, n), key);
    if inList.None? {
      if s.Some? && Loaded(links, s.value) {
        RankFalls(links, rank, n, s.value);
        PlainFinds(links, rank, s.value, key);
        if r.Some? {
          var t :| Superinterface(links, s.value, t) && Offered(links, t, key) == r;
          SuperinterfaceUp(links, n, s.value, t);
        }
      }
      if r.None? {
        forall t | Superinterface(links, n, t) ensures Offered(links, t, key) == None {
          if t !in Interfaces(links, n) {
            var p := SuperinterfaceSplit(links, n, t);
          }
        }
      }
    }
  }

  /** The same for the first interfaces of n: a member of one of them or of one of their superinterfaces. */
  lemma {:induction false} PlainListFinds(links: Links, rank: Name -> nat, n: Name, parents: seq<Name>, key: string)
    requires Ranked(links, rank, n) && Loaded(links, n) && forall p :: p in parents ==> p in Interfaces(links, n)
    ensures var r := PlainList(links, rank, n, parents, key);
      if r.Some? then exists t :: Superinterface(links, n, t) && Offered(links, t, key) == r
      else forall p, t :: p in parents && (t == p || Superinterface(links, p, t)) ==> Offered(links, t, key) == None
    decreases rank(n), 0, |parents|
  {
    if parents != [] {
      PlainOneFinds(links, rank, n, parents[0], key);
      if PlainOne(links, rank, n, parents[0], key).None? {
        PlainListFinds(links, rank, n, parents[1..], key);
        assert parents == [parents[0]] + parents[1..];
      }
    }
  }

  lemma {:induction false} PlainOneFinds(links: Links, rank: Name -> nat, n: Name, p: Name, key: string)
    requires Ranked(links, rank, n) && Loaded(links, n) && p in Interfaces(links, n)
    ensures var r := PlainOne(links, rank, n, p, key);
      if r.Some? then exists t :: Superinterface(links, n, t) && Offered(links, t, key) == r
      else forall t :: t == p || Superinterface(links, p, t) ==> Offered(links, t, key) == None
    decreases rank(n), 0, 0
  {
    if Loaded(links, p) {
      SupertypeSelf(links, n);
      assert Superinterface(links, n, p);
      if Offered(links, p, key).None? {
        RankFalls(links, rank, n, p);
        PlainFinds(links, rank, p, key);
        var inherited := PlainChain(links, rank, p, key);
        if inherited.Some? {
          var t :| Superinterface(links, p, t) && Offered(links, t, key) == inherited;
          SuperinterfaceUp(links, n, p, t);
        }
      }
    } else {
      SuperinterfaceLoads(links, p);
    }
  }

  lemma SuperinterfaceLoads(links: Links, p: Name)
    ensures forall t :: Superinterface(links, p, t) ==> Loaded(links, p)
  {
    forall t | Superinterface(links, p, t) ensures Loaded(links, p) {
      var s :| Supertype(links, p, s) && t in Interfaces(links, s);
      var k: nat :| SupertypeWithin(links, p, s, k);
    }
  }

  // ------------------------------------- the search with a visited set

  /** The class whose superinterfaces are searched after those of n. */
  function NextUp(links: Links, n: Name): Option<Name> {
    var s := SuperOf(links, n);
    if s.Some? && Loaded(links, s.value) then s else None
  }

  /**
   The superclass chains above n end: a rank falls from every supertype of n to its superclass. Interfaces
   may form cycles, and so may classes that are no supertypes of n.
   */
  ghost predicate SuperRanked(links: Links, up: Name -> nat, n: Name) {
    forall s: Name {:trigger Rises(s)} ::
      Supertype(links, n, s) && NextUp(links, s).Some? ==> up(NextUp(links, s).value) < up(s)
  }

  predicate Rises(s: Name) { true }

  lemma UpFalls(links: Links, up: Name -> nat, n: Name)
    requires SuperRanked(links, up, n) && NextUp(links, n).Some?
    ensures up(NextUp(links, n).value) < up(n) && SuperRanked(links, up, NextUp(links, n).value)
  {
    SupertypeSelf(links, n);
    assert Rises(n);
    SuperRankedAbove(links, up, n, NextUp(links, n).value);
  }

  lemma SuperRankedAbove(links: Links, up: Name -> nat, n: Name, p: Name)
    requires SuperRanked(links, up, n) && Parent(links, n, p)
    ensures SuperRanked(links, up, p)
  {
    forall s: Name | Supertype(links, p, s) && NextUp(links, s).Some?
      ensures up(NextUp(links, s).value) < up(s)
    {
      SupertypeUp(links, n, p, s);
      assert Rises(s);
    }
  }

  lemma RankedIsSuperRanked(links: Links, rank: Name -> nat, n: Name)
    requires Ranked(links, rank, n)
    ensures SuperRanked(links, rank, n)
  {
    forall s: Name | Supertype(links, n, s) && NextUp(links, s).Some?
      ensures rank(NextUp(links, s).value) < rank(s)
    {
      assert Step(s, NextUp(links, s).value);
    }
  }

  lemma InterfacesListed(links: Links, n: Name)
    ensures forall p :: p in Interfaces(links, n) ==> p in Listed(links)
  {
    LoadListed(links, n);
  }

  /** How many names a search can still meet. */
  ghost function Unmet(links: Links, met: set<Name>): nat {
    |Listed(links) - met|
  }

  lemma UnmetFalls(links: Links, met: set<Name>, more: set<Name>)
    requires met <= more
    ensures Unmet(links, more) <= Unmet(links, met)
    ensures (exists p :: p in Listed(links) && p in more && p !in met) ==> Unmet(links, more) < Unmet(links, met)
  {
    Fewer(Listed(links) - more, Listed(links) - met);
    if p :| p in Listed(links) && p in more && p !in met {
      Fewer(Listed(links) - more, Listed(links) - met - {p});
    }
  }

  lemma Fewer(a: set<Name>, b: set<Name>)
    requires a <= b
    ensures |a| <= |b|
  {
    assert b == a + (b - a);
  }

  /** What the search answers, and the names it has met by then. */
  type Found = (Option<Member>, set<Name>)

  ghost function SearchChain(links: Links, up: Name -> nat, n: Name, key: string, met: set<Name>): (r: Found)
    requires SuperRanked(links, up, n)
    ensures r.1 >= met
    decreases Unmet(links, met), up(n), 2, 0
  {
    InterfacesListed(links, n);
    var r := SearchList(links, up, n, Interfaces(links, n), key, met);
    var s := NextUp(links, n);
    if r.0.Some? || s.None? then r
    else
      UnmetFalls(links, met, r.1);
      UpFalls(links, up, n);
      SearchChain(links, up, s.value, key, r.1)
  }

  ghost function SearchList(links: Links, up: Name -> nat, n: Name, parents: seq<Name>, key: string, met: set<Name>)
    : (r: Found)
    requires SuperRanked(links, up, n) && forall p :: p in parents ==> p in Listed(links) && Parent(links, n, p)
    ensures r.1 >= met
    decreases Unmet(links, met), up(n), 1, |parents|
  {
    if parents == [] then (None, met)
    else if parents[0] in met then SearchList(links, up, n, parents[1..], key, met)
    else
      UnmetFalls(links, met, met + {parents[0]});
      SuperRankedAbove(links, up, n, parents[0]);
      var r := SearchOne(links, up, parents[0], key, met + {parents[0]});
      if r.0.Some? then r
      else
        UnmetFalls(links, met, r.1);
        SearchList(links, up, n, parents[1..], key, r.1)
  }

  ghost function SearchOne(links: Links, up: Name -> nat, p: Name, key: string, met: set<Name>): (r: Found)
    requires SuperRanked(links, up, p)
    ensures r.1 >= met
    decreases Unmet(links, met), up(p), 3, 0
  {
    if !Loaded(links, p) then (None, met)
    else if Offered(links, p, key).Some? then (Offered(links, p, key), met)
    else SearchChain(links, up, p, key, met)
  }

  /** The interfaces of n and of the classes above it have been met. */
  ghost predicate Covered(links: Links, up: Name -> nat, n: Name, met: set<Name>)
    requires SuperRanked(links, up, n)
    decreases up(n)
  {
    && (forall p :: p in Interfaces(links, n) ==> p in met)
    && (NextUp(links, n).Some? ==>
          (UpFalls(links, up, n);
           Covered(links, up, NextUp(links, n).value, met)))
  }

  lemma {:induction false} CoveredGrows(links: Links, up: Name -> nat, n: Name, met: set<Name>, more: set<Name>)
    requires SuperRanked(links, up, n) && Covered(links, up, n, met) && met <= more
    ensures Covered(links, up, n, more)
    decreases up(n)
  {
    if NextUp(links, n).Some? {
      UpFalls(links, up, n);
      CoveredGrows(links, up, NextUp(links, n).value, met, more);
    }
  }

  /** p offers nothing, and the search behind it has met everything. */
  ghost predicate Done(links: Links, up: Name -> nat, p: Name, key: string, met: set<Name>)
  {
    Offered(links, p, key).None? && SuperRanked(links, up, p) && Covered(links, up, p, met)
  }

  /** Whatever the search has met since is done. */
  ghost predicate AllDone(links: Links, up: Name -> nat, before: set<Name>, met: set<Name>, key: string)
  {
    forall p :: p in met && p !in before ==> Done(links, up, p, key, met)
  }

  lemma AllDoneThen(links: Links, up: Name -> nat, before: set<Name>, met: set<Name>, more: set<Name>, key: string)
    requires met <= more
    requires AllDone(links, up, before, met, key) && AllDone(links, up, met, more, key)
    ensures AllDone(links, up, before, more, key)
  {
    forall p | p in more && p !in before ensures Done(links, up, p, key, more) {
      if p in met {
        CoveredGrows(links, up, p, met, more);
      }
    }
  }

  lemma UnloadedDone(links: Links, up: Name -> nat, p: Name, key: string, met: set<Name>)
    requires SuperRanked(links, up, p) && !Loaded(links, p)
    ensures Done(links, up, p, key, met)
  {
  }

  lemma {:induction false} SearchChainDone(links: Links, up: Name -> nat, n: Name, key: string, met: set<Name>)
    requires SuperRanked(links, up, n)
    ensures var (r, more) := SearchChain(links, up, n, key, met);
      r.None? ==> Covered(links, up, n, more) && AllDone(links, up, met, more, key)
    decreases Unmet(links, met), up(n), 2, 0
  {
    InterfacesListed(links, n);
    var (r, more) := SearchList(links, up, n, Interfaces(links, n), key, met);
    SearchListDone(links, up, n, Interfaces(links, n), key, met);
    var s := NextUp(links, n);
    if r.None? && s.Some? {
      UnmetFalls(links, met, more);
      UpFalls(links, up, n);
      SearchChainDone(links, up, s.value, key, more);
      var (r', most) := SearchChain(links, up, s.value, key, more);
      if r'.None? {
        AllDoneThen(links, up, met, more, most, key);
      }
    }
  }

  lemma {:induction false} SearchListDone(links: Links, up: Name -> nat, n: Name, parents: seq<Name>, key: string,
                                          met: set<Name>)
    requires SuperRanked(links, up, n) && forall p :: p in parents ==> p in Listed(links) && Parent(links, n, p)
    ensures var (r, more) := SearchList(links, up, n, parents, key, met);
      r.None? ==> (forall p :: p in parents ==> p in more) && AllDone(links, up, met, more, key)
    decreases Unmet(links, met), up(n), 1, |parents|
  {
    if parents != [] {
      var p, rest := parents[0], parents[1..];
      if p in met {
        SearchListDone(links, up, n, rest, key, met);
      } else {
        UnmetFalls(links, met, met + {p});
        SuperRankedAbove(links, up, n, p);
        SearchOneDone(links, up, p, key, met);
        var (r, more) := SearchOne(links, up, p, key, met + {p});
        if r.None? {
          UnmetFalls(links, met, more);
          SearchListDone(links, up, n, rest, key, more);
          var (r', most) := SearchList(links, up, n, rest, key, more);
          if r'.None? {
            AllDoneThen(links, up, met, more, most, key);
          }
        }
      }
    }
  }

  lemma {:induction false} SearchOneDone(links: Links, up: Name -> nat, p: Name, key: string, met: set<Name>)
    requires SuperRanked(links, up, p)
    ensures var (r, more) := SearchOne(links, up, p, key, met + {p});
      r.None? ==> p in more && AllDone(links, up, met, more, key)
    decreases Unmet(links, met + {p}), up(p), 3, 0
  {
    if !Loaded(links, p) {
      UnloadedDone(links, up, p, key, met + {p});
    } else if Offered(links, p, key).None? {
      SearchChainDone(links, up, p, key, met + {p});
    }
  }

  /** When everything met is done, everything above a covered class is covered. */
  lemma {:induction false} CoveredAbove(links: Links, up: Name -> nat, n: Name, s: Name, key: string,
                                        met: set<Name>, k: nat)
    requires SuperRanked(links, up, n) && AllDone(links, up, {}, met, key) && Covered(links, up, n, met)
    requires SupertypeWithin(links, n, s, k)
    ensures forall p :: p in Interfaces(links, s) ==> p in met
    decreases k
  {
    if Canonical(n) == Canonical(s) {
      CanonicalLoads(links, n);
      CanonicalLoads(links, s);
    } else {
      var p :| Parent(links, n, p) && SupertypeWithin(links, p, s, k - 1);
      if NextUp(links, n) == Some(p) {
        UpFalls(links, up, n);
      }
      CoveredAbove(links, up, p, s, key, met, k - 1);
    }
  }

  /**
   JVMS 5.4.3.3 and 5.4.3.4 on any hierarchy whose superclass chains end, cycles of interfaces included:
   from an empty visited set the search finds a member exactly when some superinterface offers one.
   */
  lemma SearchFinds(links: Links, up: Name -> nat, n: Name, key: string)
    requires SuperRanked(links, up, n) && Loaded(links, n)
    ensures var r := SearchChain(links, up, n, key, {}).0;
      if r.Some? then exists t :: Superinterface(links, n, t) && Offered(links, t, key) == r
      else forall t :: Superinterface(links, n, t) ==> Offered(links, t, key) == None
  {
    var (r, met) := SearchChain(links, up, n, key, {});
    SearchChainSound(links, up, n, key, {});
    SearchChainDone(links, up, n, key, {});
    if r.None? {
      forall t | Superinterface(links, n, t) ensures Offered(links, t, key) == None {
        var s :| Supertype(links, n, s) && t in Interfaces(links, s);
        var k: nat :| SupertypeWithin(links, n, s, k);
        CoveredAbove(links, up, n, s, key, met, k);
      }
    }
  }

  /** A superinterface of n that offers the member. */
  ghost predicate OfferedAbove(links: Links, n: Name, key: string, r: Option<Member>) {
    exists t :: Superinterface(links, n, t) && Offered(links, t, key) == r
  }

  lemma OfferedUp(links: Links, n: Name, p: Name, key: string, r: Option<Member>)
    requires Loaded(links, n) && Parent(links, n, p) && OfferedAbove(links, p, key, r)
    ensures OfferedAbove(links, n, key, r)
  {
    var t :| Superinterface(links, p, t) && Offered(links, t, key) == r;
    SuperinterfaceUp(links, n, p, t);
  }

  lemma {:induction false} SearchChainSound(links: Links, up: Name -> nat, n: Name, key: string, met: set<Name>)
    requires SuperRanked(links, up, n) && Loaded(links, n)
    ensures var r := SearchChain(links, up, n, key, met).0; r.Some? ==> OfferedAbove(links, n, key, r)
    decreases Unmet(links, met), up(n), 2, 0
  {
    InterfacesListed(links, n);
    var (r, more) := SearchList(links, up, n, Interfaces(links, n), key, met);
    SearchListSound(links, up, n, Interfaces(links, n), key, met);
    var s := NextUp(links, n);
    if r.None? && s.Some? {
      UnmetFalls(links, met, more);
      UpFalls(links, up, n);
      SearchChainSound(links, up, s.value, key, more);
      var r' := SearchChain(links, up, s.value, key, more).0;
      if r'.Some? {
        OfferedUp(links, n, s.value, key, r');
      }
    }
  }

  lemma {:induction false} SearchListSound(links: Links, up: Name -> nat, n: Name, parents: seq<Name>, key: string,
                                           met: set<Name>)
    requires SuperRanked(links, up, n) && Loaded(links, n)
    requires forall p :: p in parents ==> p in Listed(links) && p in Interfaces(links, n)
    ensures var r := SearchList(links, up, n, parents, key, met).0; r.Some? ==> OfferedAbove(links, n, key, r)
    decreases Unmet(links, met), up(n), 1, |parents|
  {
    if parents != [] {
      var p, rest := parents[0], parents[1..];
      if p in met {
        SearchListSound(links, up, n, rest, key, met);
      } else {
        UnmetFalls(links, met, met + {p});
        SuperRankedAbove(links, up, n, p);
        SearchOneSound(links, up, n, p, key, met + {p});
        var (r, more) := SearchOne(links, up, p, key, met + {p});
        if r.None? {
          UnmetFalls(links, met, more);
          SearchListSound(links, up, n, rest, key, more);
        }
      }
    }
  }

  lemma {:induction false} SearchOneSound(links: Links, up: Name -> nat, n: Name, p: Name, key: string, met: set<Name>)
    requires SuperRanked(links, up, p) && Loaded(links, n) && p in Interfaces(links, n)
    ensures var r := SearchOne(links, up, p, key, met).0; r.Some? ==> OfferedAbove(links, n, key, r)
    decreases Unmet(links, met), up(p), 3, 0
  {
    if Loaded(links, p) {
      if Offered(links, p, key).Some? {
        SupertypeSelf(links, n);
        assert Superinterface(links, n, p);
      } else {
        SearchChainSound(links, up, p, key, met);
        var r := SearchChain(links, up, p, key, met).0;
        if r.Some? {
          OfferedUp(links, n, p, key, r);
        }
      }
    }
  }

  // -------------------------- without cycles the visited set changes nothing

  /** The search under p finds nothing. */
  ghost predicate Exhausted(links: Links, rank: Name -> nat, p: Name, key: string)
  {
    Loaded(links, p) ==>
      Offered(links, p, key).None? && Ranked(links, rank, p) && PlainChain(links, rank, p, key).None?
  }

  /** Met names below rank b are exhausted; only names whose search is still open have a higher rank. */
  ghost predicate MetBelow(links: Links, rank: Name -> nat, met: set<Name>, b: nat, key: string)
  {
    forall p :: p in met && rank(p) < b ==> Exhausted(links, rank, p, key)
  }

  ghost predicate NewExhausted(links: Links, rank: Name -> nat, met: set<Name>, more: set<Name>, key: string)
  {
    forall p :: p in more && p !in met ==> Exhausted(links, rank, p, key)
  }

  lemma {:induction false} SearchChainPlain(links: Links, up: Name -> nat, rank: Name -> nat, n: Name, key: string,
                                            met: set<Name>)
    requires SuperRanked(links, up, n) && Ranked(links, rank, n) && Loaded(links, n)
    requires MetBelow(links, rank, met, rank(n), key)
    ensures var (r, more) := SearchChain(links, up, n, key, met);
      r == PlainChain(links, rank, n, key) && (r.None? ==> NewExhausted(links, rank, met, more, key))
    decreases Unmet(links, met), up(n), 2, 0
  {
    InterfacesListed(links, n);
    var (r, more) := SearchList(links, up, n, Interfaces(links, n), key, met);
    SearchListPlain(links, up, rank, n, Interfaces(links, n), key, met);
    var s := NextUp(links, n);
    if r.None? && s.Some? {
      UnmetFalls(links, met, more);
      UpFalls(links, up, n);
      RankFalls(links, rank, n, s.value);
      SearchChainPlain(links, up, rank, s.value, key, more);
    }
  }

  lemma {:induction false} SearchListPlain(links: Links, up: Name -> nat, rank: Name -> nat, n: Name,
                                           parents: seq<Name>, key: string, met: set<Name>)
    requires SuperRanked(links, up, n) && Ranked(links, rank, n) && Loaded(links, n)
    requires forall p :: p in parents ==> p in Listed(links) && p in Interfaces(links, n)
    requires MetBelow(links, rank, met, rank(n), key)
    ensures var (r, more) := SearchList(links, up, n, parents, key, met);
      r == PlainList(links, rank, n, parents, key) && (r.None? ==> NewExhausted(links, rank, met, more, key))
    decreases Unmet(links, met), up(n), 1, |parents|
  {
    if parents != [] {
      var p, rest := parents[0], parents[1..];
      assert Parent(links, n, p);
      if p in met {
        MetFindsNothing(links, rank, n, p, key, met);
        SearchListPlain(links, up, rank, n, rest, key, met);
      } else {
        UnmetFalls(links, met, met + {p});
        SuperRankedAbove(links, up, n, p);
        SearchOnePlain(links, up, rank, n, p, key, met);
        var (r, more) := SearchOne(links, up, p, key, met + {p});
        if r.None? {
          UnmetFalls(links, met, more);
          SearchListPlain(links, up, rank, n, rest, key, more);
        }
      }
    }
  }

  lemma MetFindsNothing(links: Links, rank: Name -> nat, n: Name, p: Name, key: string, met: set<Name>)
    requires Ranked(links, rank, n) && Parent(links, n, p) && p in met && MetBelow(links, rank, met, rank(n), key)
    ensures PlainOne(links, rank, n, p, key) == None
  {
    if Loaded(links, p) {
      RankFalls(links, rank, n, p);
    }
  }

  lemma {:induction false} SearchOnePlain(links: Links, up: Name -> nat, rank: Name -> nat, n: Name, p: Name,
                                          key: string, met: set<Name>)
    requires SuperRanked(links, up, p) && Ranked(links, rank, n) && p in Interfaces(links, n)
    requires MetBelow(links, rank, met, rank(n), key)
    ensures var (r, more) := SearchOne(links, up, p, key, met + {p});
      r == PlainOne(links, rank, n, p, key) && (r.None? ==> NewExhausted(links, rank, met, more, key))
    decreases Unmet(links, met + {p}), up(p), 3, 0
  {
    if Loaded(links, p) && Offered(links, p, key).None? {
      RankFalls(links, rank, n, p);
      SearchChainPlain(links, up, rank, p, key, met + {p});
    }
  }

  /** Where nothing above n forms a cycle, the visited set only saves time. */
  lemma SearchIsPlain(links: Links, rank: Name -> nat, n: Name, key: string)
    requires Ranked(links, rank, n) && Loaded(links, n)
    ensures SuperRanked(links, rank, n)
    ensures SearchChain(links, rank, n, key, {}).0 == PlainChain(links, rank, n, key)
  {
    RankedIsSuperRanked(links, rank, n);
    SearchChainPlain(links, rank, rank, n, key, {});
  }

  // -------------------------------------------------------------- fields

  function DeclaredField(links: Links, n: Name, key: string): Option<Member> {
    if Loaded(links, n) && key in Load(links, n).value.fields then Some(Load(links, n).value.fields[key]) else None
  }

  /** JVMS 5.4.3.2: the class, then its superinterfaces in order, then its superclass, each the same way. */
  ghost function FieldIn(links: Links, rank: Name -> nat, n: Name, key: string): Option<Member>
    requires Ranked(links, rank, n) && Loaded(links, n)
    decreases rank(n), 1, 0
  {
    var d := DeclaredField(links, n, key);
    var s := SuperOf(links, n);
    if d.Some? then d
    else
      var r := FieldInList(links, rank, n, Interfaces(links, n), key);
      if r.Some? then r
      else if s.Some? && Loaded(links, s.value) then
        RankFalls(links, rank, n, s.value);
        FieldIn(links, rank, s.value, key)
      else None
  }

  ghost function FieldInList(links: Links, rank: Name -> nat, n: Name, parents: seq<Name>, key: string): Option<Member>
    requires Ranked(links, rank, n) && forall p :: p in parents ==> Parent(links, n, p)
    decreases rank(n), 0, |parents|
  {
    if parents == [] then None
    else
      var found :=
        if Loaded(links, parents[0]) then
          RankFalls(links, rank, n, parents[0]);
          FieldIn(links, rank, parents[0], key)
        else None;
      if found.Some? then found else FieldInList(links, rank, n, parents[1..], key)
  }

  /** The lookup fails exactly when no loadable supertype declares the field. */
  lemma {:induction false} FieldFinds(links: Links, rank: Name -> nat, n: Name, key: string)
    requires Ranked(links, rank, n) && Loaded(links, n)
    ensures var r := FieldIn(links, rank, n, key);
      if r.Some? then exists t :: Supertype(links, n, t) && DeclaredField(links, t, key) == r
      else forall t :: Supertype(links, n, t) ==> DeclaredField(links, t, key) == None
    decreases rank(n), 1, 0
  {
    SupertypeSelf(links, n);
    if DeclaredField(links, n, key).None? {
      FieldListFinds(links, rank, n, Interfaces(links, n), key);
      var s := SuperOf(links, n);
      if FieldInList(links, rank, n, Interfaces(links, n), key).None? {
        if s.Some? && Loaded(links, s.value) {
          RankFalls(links, rank, n, s.value);
          FieldFinds(links, rank, s.value, key);
          FieldUp(links, rank, n, s.value, key);
        }
        if FieldIn(links, rank, n, key).None? {
          forall t | Supertype(links, n, t) ensures DeclaredField(links, t, key) == None {
            CanonicalLoads(links, t);
            CanonicalLoads(links, n);
            if Canonical(t) != Canonical(n) { var p := SupertypeSplit(links, n, t); }
          }
        }
      }
    }
  }

  lemma FieldUp(links: Links, rank: Name -> nat, n: Name, p: Name, key: string)
    requires Ranked(links, rank, p) && Loaded(links, n) && Parent(links, n, p) && Loaded(links, p)
    ensures var r := FieldIn(links, rank, p, key);
      (exists t :: Supertype(links, p, t) && DeclaredField(links, t, key) == r)
        ==> exists t :: Supertype(links, n, t) && DeclaredField(links, t, key) == r
  {
    var r := FieldIn(links, rank, p, key);
    if t :| Supertype(links, p, t) && DeclaredField(links, t, key) == r {
      SupertypeUp(links, n, p, t);
    }
  }

  lemma {:induction false} FieldListFinds(links: Links, rank: Name -> nat, n: Name, parents: seq<Name>, key: string)
    requires Ranked(links, rank, n) && Loaded(links, n) && forall p :: p in parents ==> Parent(links, n, p)
    ensures var r := FieldInList(links, rank, n, parents, key);
      if r.Some? then exists t :: Supertype(links, n, t) && DeclaredField(links, t, key) == r
      else forall p, t :: p in parents && Supertype(links, p, t) ==> DeclaredField(links, t, key) == None
    decreases rank(n), 0, |parents|
  {
    if parents != [] {
      var p := parents[0];
      if Loaded(links, p) {
        RankFalls(links, rank, n, p);
        FieldFinds(links, rank, p, key);
        FieldUp(links, rank, n, p, key);
      }
      if !Loaded(links, p) || (Ranked(links, rank, p) && FieldIn(links, rank, p, key).None?) {
        FieldListFinds(links, rank, n, parents[1..], key);
      }
    }
  }

  // ------------------------------------------------------ class methods

  const POLYMORPHIC: set<Name> := {"java/lang/invoke/MethodHandle", "java/lang/invoke/VarHandle"}

  /** JVMS 2.9.3: native varargs methods of MethodHandle and VarHandle accept any descriptor. */
  function Polymorphic(links: Links, n: Name, name: string): Option<Member> {
    if Loaded(links, n) then PolymorphicMember(Load(links, n).value, name) else None
  }

  function PolymorphicMember(c: ClassInfo, name: string): Option<Member> {
    if c.name in POLYMORPHIC && name in c.methodsByName
       && c.methodsByName[name].isNative && c.methodsByName[name].isVarargs
    then Some(c.methodsByName[name]) else None
  }

  /** What a class itself answers to a method reference. */
  function Own(links: Links, n: Name, name: string, desc: string): Option<Member> {
    var d := Declared(links, n, name + desc);
    if d.Some? then d else Polymorphic(links, n, name)
  }

  /** The first answer along the superclass chain. */
  ghost function ClassChain(links: Links, up: Name -> nat, n: Name, name: string, desc: string): Option<Member>
    requires SuperRanked(links, up, n)
    decreases up(n)
  {
    var own := Own(links, n, name, desc);
    var s := NextUp(links, n);
    if own.Some? then own
    else if s.Some? then
      UpFalls(links, up, n);
      ClassChain(links, up, s.value, name, desc)
    else None
  }

  /** JVMS 5.4.3.3: the class and its superclasses first, then the superinterfaces. */
  ghost function ClassMethod(links: Links, up: Name -> nat, n: Name, name: string, desc: string): Option<Member>
    requires SuperRanked(links, up, n)
  {
    var own := ClassChain(links, up, n, name, desc);
    if own.Some? then own else SearchChain(links, up, n, name + desc, {}).0
  }

  /** JVMS 5.4.3.4: the interface, then the public instance methods of Object, then the superinterfaces. */
  ghost function InterfaceMethod(links: Links, up: Name -> nat, n: Name, key: string): Option<Member>
    requires SuperRanked(links, up, n)
  {
    var d := Declared(links, n, key);
    var o := Declared(links, OBJECT, key);
    if d.Some? then d
    else if o.Some? && o.value.isPublic && !o.value.isStatic then o
    else SearchChain(links, up, n, key, {}).0
  }

  // ------------------------------------------------- missing supertypes

  /** p is a parent of n or of one of n's supertypes, and it does not load. */
  ghost predicate MissingAbove(links: Links, n: Name, p: Name) {
    !Loaded(links, p) && exists s :: Supertype(links, n, s) && Parent(links, s, p)
  }

  /** A set of classes that holds every loadable parent of its members holds every supertype of them. */
  lemma {:induction false} ClosedHoldsAll(links: Links, closed: set<Name>, n: Name, t: Name, k: nat)
    requires forall v, p :: v in closed && Parent(links, v, p) ==> Loaded(links, p) && Canonical(p) in closed
    requires Canonical(n) in closed && SupertypeWithin(links, n, t, k)
    ensures Canonical(t) in closed
    decreases k
  {
    if Canonical(n) != Canonical(t) {
      var p :| Parent(links, n, p) && SupertypeWithin(links, p, t, k - 1);
      CanonicalLoads(links, n);
      assert Parent(links, Canonical(n), p);
      ClosedHoldsAll(links, closed, p, t, k - 1);
    }
  }

  lemma ParentIsSupertype(links: Links, start: Name, n: Name, p: Name)
    requires Supertype(links, start, n) && Parent(links, n, p) && Loaded(links, p)
    ensures Load(links, Load(links, p).value.name) == Load(links, p)
    ensures Supertype(links, start, Load(links, p).value.name)
  {
    var k: nat :| SupertypeWithin(links, start, n, k);
    CanonicalLoads(links, p);
    SupertypeThen(links, start, n, p, k);
    SupertypeAlias(links, start, p, Canonical(p));
  }

  lemma SupertypeAlias(links: Links, n: Name, t: Name, u: Name)
    requires Supertype(links, n, t) && Canonical(t) == Canonical(u)
    ensures Supertype(links, n, u)
  {
    var k: nat :| SupertypeWithin(links, n, t, k);
    AliasWithin(links, n, t, u, k);
  }

  lemma {:induction false} AliasWithin(links: Links, n: Name, t: Name, u: Name, k: nat)
    requires SupertypeWithin(links, n, t, k) && Canonical(t) == Canonical(u)
    ensures SupertypeWithin(links, n, u, k)
    decreases k
  {
    if Canonical(n) != Canonical(t) {
      var p :| Parent(links, n, p) && SupertypeWithin(links, p, t, k - 1);
      AliasWithin(links, p, t, u, k - 1);
    }
  }
}
