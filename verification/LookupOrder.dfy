/**
 Which member a lookup finds: the first one of a walk over the supertypes, and, for methods of classes, the one
 of the nearest superclass that answers.
 */
module LookupOrder {
  import opened Common
  import opened LinkModel
  import opened ClassHierarchy

  // -------------------------------------------------- ways up the hierarchy

  /** The direct supertypes in lookup order: the interfaces as listed, then the superclass. */
  function Parents(links: Links, n: Name): seq<Name> {
    Interfaces(links, n) + if SuperOf(links, n).Some? then [SuperOf(links, n).value] else []
  }

  /** A way up is a list of choices among the parents. It comes before another that continues it or chooses later. */
  predicate Before(p: seq<nat>, q: seq<nat>) {
    q != [] && (p == [] || p[0] < q[0] || (p[0] == q[0] && Before(p[1..], q[1..])))
  }

  /** What a class has for a lookup; the flag says whether it was reached as an interface. */
  type Has = (Name, bool) -> Option<Member>

  /** What is found at the end of a way up from n. */
  ghost function At(links: Links, own: Has, n: Name, asInterface: bool, path: seq<nat>): Option<Member>
    decreases |path|
  {
    if path == [] then own(n, asInterface)
    else if path[0] < |Parents(links, n)| then
      At(links, own, Parents(links, n)[path[0]], path[0] < |Interfaces(links, n)|, path[1..])
    else None
  }

  /** r is what the first way up that ends at a member finds; it is None when there is no such way. */
  ghost predicate First(links: Links, own: Has, n: Name, asInterface: bool, r: Option<Member>) {
    if r.None? then forall q :: At(links, own, n, asInterface, q) == None
    else exists p :: Leads(links, own, n, asInterface, p, r)
  }

  ghost predicate Leads(links: Links, own: Has, n: Name, asInterface: bool, p: seq<nat>, r: Option<Member>) {
    && At(links, own, n, asInterface, p) == r
    && forall q :: Before(q, p) ==> At(links, own, n, asInterface, q) == None
  }

  lemma {:induction false} BeforeTotal(p: seq<nat>, q: seq<nat>)
    ensures Before(p, q) || Before(q, p) || p == q
  {
    if p != [] && q != [] && p[0] == q[0] {
      BeforeTotal(p[1..], q[1..]);
      assert p == [p[0]] + p[1..] && q == [q[0]] + q[1..];
    }
  }

  /** So there is one answer only. */
  lemma FirstUnique(links: Links, own: Has, n: Name, asInterface: bool, r: Option<Member>, s: Option<Member>)
    requires First(links, own, n, asInterface, r) && First(links, own, n, asInterface, s)
    ensures r == s
  {
    if r.Some? && s.Some? {
      var p :| Leads(links, own, n, asInterface, p, r);
      var q :| Leads(links, own, n, asInterface, q, s);
      BeforeTotal(p, q);
    }
  }

  // ------------------------------------------------ from parent to parent

  predicate From(k: nat, p: seq<nat>) {
    p != [] && p[0] >= k
  }

  /** The same among the ways up that begin with parent k or a later one. */
  ghost predicate FirstFrom(links: Links, own: Has, n: Name, k: nat, r: Option<Member>) {
    if r.None? then forall q :: From(k, q) ==> At(links, own, n, false, q) == None
    else exists p :: LeadsFrom(links, own, n, k, p, r)
  }

  ghost predicate LeadsFrom(links: Links, own: Has, n: Name, k: nat, p: seq<nat>, r: Option<Member>) {
    && From(k, p) && At(links, own, n, false, p) == r
    && forall q :: From(k, q) && Before(q, p) ==> At(links, own, n, false, q) == None
  }

  lemma NoMoreParents(links: Links, own: Has, n: Name)
    ensures FirstFrom(links, own, n, |Parents(links, n)|, None)
  {
  }

  function Else(r: Option<Member>, s: Option<Member>): Option<Member> {
    if r.Some? then r else s
  }

  /** One parent, and then the later ones. */
  lemma OneParent(links: Links, own: Has, n: Name, k: nat, r: Option<Member>, s: Option<Member>)
    requires k < |Parents(links, n)| && FirstFrom(links, own, n, k + 1, s)
    requires First(links, own, Parents(links, n)[k], k < |Interfaces(links, n)|, r)
    ensures FirstFrom(links, own, n, k, Else(r, s))
  {
    if r.Some? {
      var p :| Leads(links, own, Parents(links, n)[k], k < |Interfaces(links, n)|, p, r);
      var path := [k] + p;
      assert path[1..] == p;
      assert LeadsFrom(links, own, n, k, path, r);
    } else if s.Some? {
      var p :| LeadsFrom(links, own, n, k + 1, p, s);
      forall q | From(k, q) && Before(q, p) ensures At(links, own, n, false, q) == None {
        if q[0] != k { assert From(k + 1, q); }
      }
      assert LeadsFrom(links, own, n, k, p, s);
    } else {
      forall q | From(k, q) ensures At(links, own, n, false, q) == None {
        if q[0] != k { assert From(k + 1, q); }
      }
    }
  }

  /** A class itself, and then its parents. */
  lemma ThenParents(links: Links, own: Has, n: Name, asInterface: bool, s: Option<Member>)
    requires FirstFrom(links, own, n, 0, s)
    ensures First(links, own, n, asInterface, Else(own(n, asInterface), s))
  {
    if own(n, asInterface).Some? {
      assert Leads(links, own, n, asInterface, [], own(n, asInterface));
    } else if s.Some? {
      var p :| LeadsFrom(links, own, n, 0, p, s);
      forall q | Before(q, p) ensures At(links, own, n, asInterface, q) == None {
        if q != [] { assert From(0, q); }
      }
      assert Leads(links, own, n, asInterface, p, s);
    } else {
      forall q ensures At(links, own, n, asInterface, q) == None {
        if q != [] { assert From(0, q); }
      }
    }
  }

  lemma NothingUnloaded(links: Links, own: Has, n: Name, asInterface: bool)
    requires !Loaded(links, n) && own(n, asInterface) == None
    ensures First(links, own, n, asInterface, None)
  {
    NoMoreParents(links, own, n);
    ThenParents(links, own, n, asInterface, None);
  }

  // -------------------------------------------------------------- fields

  /** Every class and interface on the way counts, with what it declares. */
  ghost function Fields(links: Links, key: string): Has {
    (t, _) =>
      match Load(links, t)
      case Some(info) => if key in info.fields then Some(info.fields[key]) else None
      case None => None
  }

  /** JVMS 5.4.3.2: the field found is the first one declared on the walk over the supertypes. */
  lemma {:induction false} FieldIsFirst(links: Links, rank: Name -> nat, n: Name, key: string, asInterface: bool)
    requires Ranked(links, rank, n) && Loaded(links, n)
    ensures First(links, Fields(links, key), n, asInterface, FieldIn(links, rank, n, key))
    decreases rank(n), |Interfaces(links, n)| + 1
  {
    var own, s, i := Fields(links, key), SuperOf(links, n), |Interfaces(links, n)|;
    var above := None;
    NoMoreParents(links, own, n);
    if s.Some? {
      assert Parents(links, n)[i] == s.value;
      if Loaded(links, s.value) {
        RankFalls(links, rank, n, s.value);
        FieldIsFirst(links, rank, s.value, key, false);
        above := FieldIn(links, rank, s.value, key);
      } else {
        NothingUnloaded(links, own, s.value, false);
      }
      OneParent(links, own, n, i, above, None);
    }
    assert Interfaces(links, n)[0..] == Interfaces(links, n);
    FieldListIsFirst(links, rank, n, key, 0, above);
    ThenParents(links, own, n, asInterface, Else(FieldInList(links, rank, n, Interfaces(links, n), key), above));
  }

  lemma {:induction false} FieldListIsFirst(links: Links, rank: Name -> nat, n: Name, key: string, k: nat,
                                            above: Option<Member>)
    requires Ranked(links, rank, n) && Loaded(links, n) && k <= |Interfaces(links, n)|
    requires FirstFrom(links, Fields(links, key), n, |Interfaces(links, n)|, above)
    ensures FirstFrom(links, Fields(links, key), n, k,
      Else(FieldInList(links, rank, n, Interfaces(links, n)[k..], key), above))
    decreases rank(n), |Interfaces(links, n)| - k
  {
    var own, i := Fields(links, key), Interfaces(links, n);
    if k < |i| {
      var p, found := i[k], None;
      assert Parents(links, n)[k] == p && i[k..][0] == p && i[k..][1..] == i[k + 1..];
      if Loaded(links, p) {
        RankFalls(links, rank, n, p);
        FieldIsFirst(links, rank, p, key, true);
        found := FieldIn(links, rank, p, key);
      } else {
        NothingUnloaded(links, own, p, true);
      }
      FieldListIsFirst(links, rank, n, key, k + 1, above);
      OneParent(links, own, n, k, found, Else(FieldInList(links, rank, n, i[k + 1..], key), above));
    }
  }

  // --------------------------------------------------- superinterface methods

  /** Only interfaces count, with a declared method that is neither private nor static. */
  ghost function Methods(links: Links, key: string): Has {
    (t, asInterface) =>
      match Load(links, t)
      case Some(info) =>
        if asInterface && key in info.methods && !info.methods[key].isPrivate && !info.methods[key].isStatic
        then Some(info.methods[key]) else None
      case None => None
  }

  /** The method found is the first one that an interface offers on the walk over the supertypes. */
  lemma {:induction false} PlainIsFirst(links: Links, rank: Name -> nat, n: Name, key: string)
    requires Ranked(links, rank, n) && Loaded(links, n)
    ensures FirstFrom(links, Methods(links, key), n, 0, PlainChain(links, rank, n, key))
    decreases rank(n), |Interfaces(links, n)| + 1
  {
    var own, s, i := Methods(links, key), SuperOf(links, n), |Interfaces(links, n)|;
    var above := None;
    NoMoreParents(links, own, n);
    if s.Some? {
      assert Parents(links, n)[i] == s.value;
      if Loaded(links, s.value) {
        RankFalls(links, rank, n, s.value);
        PlainIsFirst(links, rank, s.value, key);
        above := PlainChain(links, rank, s.value, key);
        ThenParents(links, own, s.value, false, above);
      } else {
        NothingUnloaded(links, own, s.value, false);
      }
      OneParent(links, own, n, i, above, None);
    }
    assert Interfaces(links, n)[0..] == Interfaces(links, n);
    PlainListIsFirst(links, rank, n, key, 0, above);
  }

  lemma {:induction false} PlainListIsFirst(links: Links, rank: Name -> nat, n: Name, key: string, k: nat,
                                            above: Option<Member>)
    requires Ranked(links, rank, n) && Loaded(links, n) && k <= |Interfaces(links, n)|
    requires FirstFrom(links, Methods(links, key), n, |Interfaces(links, n)|, above)
    ensures FirstFrom(links, Methods(links, key), n, k,
      Else(PlainList(links, rank, n, Interfaces(links, n)[k..], key), above))
    decreases rank(n), |Interfaces(links, n)| - k
  {
    var own, i := Methods(links, key), Interfaces(links, n);
    if k < |i| {
      var p := i[k];
      assert Parents(links, n)[k] == p && i[k..][0] == p && i[k..][1..] == i[k + 1..];
      if Loaded(links, p) {
        RankFalls(links, rank, n, p);
        PlainIsFirst(links, rank, p, key);
        ThenParents(links, own, p, true, PlainChain(links, rank, p, key));
      } else {
        NothingUnloaded(links, own, p, true);
      }
      PlainListIsFirst(links, rank, n, key, k + 1, above);
      OneParent(links, own, n, k, PlainOne(links, rank, n, p, key),
        Else(PlainList(links, rank, n, i[k + 1..], key), above));
    }
  }

  /** So the search with the visited set finds it too, where nothing above n forms a cycle. */
  lemma SearchIsFirst(links: Links, rank: Name -> nat, n: Name, key: string)
    requires Ranked(links, rank, n) && Loaded(links, n)
    ensures SuperRanked(links, rank, n)
    ensures First(links, Methods(links, key), n, false, SearchChain(links, rank, n, key, {}).0)
  {
    SearchIsPlain(links, rank, n, key);
    PlainIsFirst(links, rank, n, key);
    ThenParents(links, Methods(links, key), n, false, PlainChain(links, rank, n, key));
  }

  // ------------------------------------------------------- class methods

  /** The class that many superclass steps above n, as far as the classes load. */
  function SuperclassAt(links: Links, n: Name, k: nat): Option<Name>
    decreases k
  {
    if k == 0 then Some(n)
    else if NextUp(links, n).None? then None
    else SuperclassAt(links, NextUp(links, n).value, k - 1)
  }

  /**
   What a class answers itself: the method of that name and descriptor, or else, for MethodHandle and VarHandle,
   a native varargs method of that name.
   */
  ghost predicate Answers(links: Links, c: Name, name: string, desc: string, m: Member) {
    match Load(links, c)
    case None => false
    case Some(info) =>
      if name + desc in info.methods then m == info.methods[name + desc]
      else
        && info.name in {"java/lang/invoke/MethodHandle", "java/lang/invoke/VarHandle"}
        && name in info.methodsByName && m == info.methodsByName[name] && m.isNative && m.isVarargs
  }

  /** The class k superclass steps up answers m. */
  ghost predicate AnswersAt(links: Links, n: Name, name: string, desc: string, k: nat, m: Member) {
    SuperclassAt(links, n, k).Some? && Answers(links, SuperclassAt(links, n, k).value, name, desc, m)
  }

  /** Of n and its superclasses, the nearest one that answers is k steps up, and it answers m. */
  ghost predicate NearestAnswers(links: Links, n: Name, name: string, desc: string, k: nat, m: Member) {
    && AnswersAt(links, n, name, desc, k, m)
    && forall j: nat, x :: j < k ==> !AnswersAt(links, n, name, desc, j, x)
  }

  ghost predicate NoClassAnswers(links: Links, n: Name, name: string, desc: string) {
    forall k: nat, m :: !AnswersAt(links, n, name, desc, k, m)
  }

  lemma AnswersHere(links: Links, n: Name, name: string, desc: string)
    ensures forall m :: AnswersAt(links, n, name, desc, 0, m) <==> Own(links, n, name, desc) == Some(m)
  {
  }

  /** One step up the chain, everything is one step nearer. */
  lemma AnswersAbove(links: Links, n: Name, name: string, desc: string, k: nat, m: Member)
    requires k > 0
    ensures AnswersAt(links, n, name, desc, k, m) <==>
      NextUp(links, n).Some? && AnswersAt(links, NextUp(links, n).value, name, desc, k - 1, m)
  {
  }

  /** r is what the superclass chain of n answers. */
  ghost predicate ChainAnswers(links: Links, n: Name, name: string, desc: string, r: Option<Member>) {
    match r
    case Some(m) => exists k: nat :: NearestAnswers(links, n, name, desc, k, m)
    case None => NoClassAnswers(links, n, name, desc)
  }

  lemma {:induction false} ChainIsNearest(links: Links, up: Name -> nat, n: Name, name: string, desc: string)
    requires SuperRanked(links, up, n)
    ensures ChainAnswers(links, n, name, desc, ClassChain(links, up, n, name, desc))
    decreases up(n)
  {
    AnswersHere(links, n, name, desc);
    var own, s := Own(links, n, name, desc), NextUp(links, n);
    if own.Some? {
      assert NearestAnswers(links, n, name, desc, 0, own.value);
    } else if s.Some? {
      UpFalls(links, up, n);
      var above := ClassChain(links, up, s.value, name, desc);
      assert ClassChain(links, up, n, name, desc) == above;
      ChainIsNearest(links, up, s.value, name, desc);
      OneStepNearer(links, n, name, desc, s.value, above);
    } else {
      forall k: nat, m ensures !AnswersAt(links, n, name, desc, k, m) {
        if k > 0 { AnswersAbove(links, n, name, desc, k, m); }
      }
    }
  }

  lemma OneStepNearer(links: Links, n: Name, name: string, desc: string, s: Name, r: Option<Member>)
    requires NextUp(links, n) == Some(s) && forall m :: !AnswersAt(links, n, name, desc, 0, m)
    requires ChainAnswers(links, s, name, desc, r)
    ensures ChainAnswers(links, n, name, desc, r)
  {
    forall k: nat, m | k > 0
      ensures AnswersAt(links, n, name, desc, k, m) <==> AnswersAt(links, s, name, desc, k - 1, m)
    {
      AnswersAbove(links, n, name, desc, k, m);
    }
    if r.Some? {
      var k: nat :| NearestAnswers(links, s, name, desc, k, r.value);
      assert NearestAnswers(links, n, name, desc, k + 1, r.value);
    }
  }

  /**
   JVMS 5.4.3.3: the nearest class of the superclass chain that answers decides; a superinterface's method is
   found only when none does.
   */
  lemma ClassMethodIsNearest(links: Links, up: Name -> nat, n: Name, name: string, desc: string)
    requires SuperRanked(links, up, n) && Loaded(links, n)
    ensures match ClassMethod(links, up, n, name, desc)
      case Some(m) =>
        || (exists k: nat :: NearestAnswers(links, n, name, desc, k, m))
        || (NoClassAnswers(links, n, name, desc) && OfferedAbove(links, n, name + desc, Some(m)))
      case None =>
        NoClassAnswers(links, n, name, desc)
        && forall t :: Superinterface(links, n, t) ==> Offered(links, t, name + desc) == None
  {
    ChainIsNearest(links, up, n, name, desc);
    SearchFinds(links, up, n, name + desc);
  }

  /** And then it is the first one offered. */
  lemma ClassMethodIsFirst(links: Links, rank: Name -> nat, n: Name, name: string, desc: string)
    requires Ranked(links, rank, n) && Loaded(links, n) && NoClassAnswers(links, n, name, desc)
    ensures SuperRanked(links, rank, n)
    ensures First(links, Methods(links, name + desc), n, false, ClassMethod(links, rank, n, name, desc))
  {
    SearchIsFirst(links, rank, n, name + desc);
    ChainIsNearest(links, rank, n, name, desc);
  }

  // --------------------------------------------------- interface methods

  /** Object has a public instance method m under that key. */
  ghost predicate OfObject(links: Links, key: string, m: Member) {
    match Load(links, "java/lang/Object")
    case None => false
    case Some(info) => key in info.methods && m == info.methods[key] && m.isPublic && !m.isStatic
  }

  lemma ObjectHas(links: Links, key: string)
    ensures match Declared(links, OBJECT, key)
      case Some(o) => OfObject(links, key, o) <==> o.isPublic && !o.isStatic
      case None => true
  {
  }

  /**
   JVMS 5.4.3.4: the interface's own method, or else a public instance method of Object, or else the method of a
   superinterface.
   */
  lemma InterfaceMethodOrder(links: Links, up: Name -> nat, n: Name, key: string)
    requires SuperRanked(links, up, n) && Loaded(links, n)
    ensures match InterfaceMethod(links, up, n, key)
      case Some(m) =>
        || Declared(links, n, key) == Some(m)
        || (Declared(links, n, key) == None && OfObject(links, key, m))
        || (Declared(links, n, key) == None && (forall o :: !OfObject(links, key, o))
            && OfferedAbove(links, n, key, Some(m)))
      case None =>
        && Declared(links, n, key) == None && (forall o :: !OfObject(links, key, o))
        && forall t :: Superinterface(links, n, t) ==> Offered(links, t, key) == None
  {
    SearchFinds(links, up, n, key);
  }

  lemma InterfaceMethodIsFirst(links: Links, rank: Name -> nat, n: Name, key: string)
    requires Ranked(links, rank, n) && Loaded(links, n)
    requires Declared(links, n, key) == None && forall o :: !OfObject(links, key, o)
    ensures SuperRanked(links, rank, n)
    ensures First(links, Methods(links, key), n, false, InterfaceMethod(links, rank, n, key))
  {
    SearchIsFirst(links, rank, n, key);
    ObjectHas(links, key);
  }
}
