/**
 The Resolver of LinkGapScanner: class lookup through two caches, and member searches that share
 one mutable visited set.
 */
module LinkResolver {
  import opened Common
  import opened LinkModel
  import opened ClassHierarchy

  /** A Java HashSet of names. */
  class NameSet {
    var names: set<Name>

    constructor ()
      ensures names == {}
    {
      names := {};
    }
  }

  class Resolver {
    const links: Links
    var classes: map<Name, ClassInfo>
    var missing: set<Name>

    constructor (links: Links)
      ensures this.links == links && Valid()
    {
      this.links, classes, missing := links, map[], {};
    }

    /** The caches hold answers of the plain lookup only. */
    ghost predicate Valid()
      reads this
    {
      && (forall n :: n in classes ==> Load(links, n) == Some(classes[n]))
      && (forall n :: n in missing ==> Load(links, n) == None)
    }

    method Info(name: Name) returns (info: Option<ClassInfo>)
      requires Valid()
      modifies this
      ensures Valid() && info == Load(links, name)
    {
      var lookup := name;
      if StartsWith(name, "[") {
        lookup := OBJECT;
      }
      if lookup in classes {
        return Some(classes[lookup]);
      }
      if lookup in missing {
        return None;
      }
      var bytes := Read(lookup);
      if bytes.None? {
        missing := missing + {lookup};
        return None;
      }
      var adopted := Adopt(links, lookup, bytes.value);
      classes := classes[lookup := adopted];
      return Some(adopted);
    }

    method Read(name: Name) returns (bytes: Option<ClassInfo>)
      ensures bytes == ReadBytes(links, name)
    {
      if links.teavm && Substituted(name) {
        var roots := links.subjects + links.classpath + [links.library];
        var candidates := Candidates(name);
        for c := 0 to |candidates|
          invariant ReadCandidates(roots, candidates) == ReadCandidates(roots, candidates[c..])
        {
          bytes := ReadRoots(roots, candidates[c]);
          if bytes.Some? { return; }
        }
        return None;
      }
      bytes := ReadRoots(links.subjects, name);
      if bytes.None? {
        bytes := ReadRoots(links.classpath, name);
      }
      if bytes.None? && !links.teavm {
        bytes := ReadRoots([links.library], name);
      }
    }

    method ReadRoots(roots: seq<Root>, name: Name) returns (bytes: Option<ClassInfo>)
      ensures bytes == ReadFirst(roots, name)
    {
      for r := 0 to |roots|
        invariant ReadFirst(roots, name) == ReadFirst(roots[r..], name)
      {
        if name in roots[r] { return Some(roots[r][name]); }
      }
      return None;
    }

    // -------------------------------------------- missing supertypes

    /** Breadth first over the supertypes. */
    method MissingSupertype(start: ClassInfo) returns (r: Option<Name>)
      requires Valid() && Load(links, start.name) == Some(start)
      modifies this
      ensures Valid()
      ensures r.None? ==> forall p: Name :: !MissingAbove(links, start.name, p)
      ensures r.Some? ==> MissingAbove(links, start.name, r.value)
    {
      var queue := [start];
      var visited: set<Name> := {};
      ghost var universe := Reachable(start.name);
      CanonicalLoads(links, start.name);
      SupertypeSelf(links, start.name);
      while queue != []
        invariant Valid() && QueueOk(start.name, queue)
        invariant Expanded(visited, queue)
        invariant start.name in visited || start in queue
        decreases |universe - visited|, |queue|
      {
        var current := queue[0];
        if current.name in visited {
          StillExpanded(visited, queue, current);
          queue := queue[1..];
        } else {
          Fewer(universe, visited, current);
          r, queue, visited := Visit(queue, visited, start.name);
          if r.Some? { return; }
        }
      }
      NothingMissing(start.name, visited);
      return None;
    }

    /** The names that the classes above start can have. */
    ghost function Reachable(start: Name): set<Name> {
      {start} + set p | p in Listed(links) :: Canonical(p)
    }

    lemma Fewer(universe: set<Name>, met: set<Name>, current: ClassInfo)
      requires current.name in universe && current.name !in met
      ensures |universe - (met + {current.name})| < |universe - met|
    {
      assert universe - (met + {current.name}) == (universe - met) - {current.name};
    }

    lemma StillExpanded(visited: set<Name>, queue: seq<ClassInfo>, current: ClassInfo)
      requires Expanded(visited, queue) && queue != [] && current == queue[0] && current.name in visited
      ensures Expanded(visited, queue[1..])
    {
      assert queue == [current] + queue[1..];
      forall v, p | v in visited && Parent(links, v, p)
        ensures Loaded(links, p) && (Canonical(p) in visited || Load(links, p).value in queue[1..])
      {
        CanonicalLoads(links, p);
      }
    }

    /** The class at the head of the queue is new. */
    method Visit(queue: seq<ClassInfo>, visited: set<Name>, ghost start: Name)
      returns (r: Option<Name>, grown: seq<ClassInfo>, met: set<Name>)
      requires Valid() && QueueOk(start, queue) && queue != [] && Expanded(visited, queue)
      modifies this
      ensures Valid() && QueueOk(start, grown) && met == visited + {queue[0].name}
      ensures r.Some? ==> MissingAbove(links, start, r.value)
      ensures r.None? ==> Expanded(met, grown) && forall c :: c in queue ==> c == queue[0] || c in grown
    {
      var current := queue[0];
      met := visited + {current.name};
      assert queue == [current] + queue[1..];
      r, grown := Enqueue(current, queue[1..], start);
      if r.None? {
        StaysExpanded(visited, queue, current, grown);
      }
    }

    lemma StaysExpanded(met: set<Name>, before: seq<ClassInfo>, current: ClassInfo, queue: seq<ClassInfo>)
      requires Expanded(met, before)
      requires forall c :: c in before ==> c == current || c in queue
      requires forall p :: Parent(links, current.name, p) ==> Loaded(links, p) && Load(links, p).value in queue
      ensures Expanded(met + {current.name}, queue)
    {
      forall v, p | v in met + {current.name} && Parent(links, v, p)
        ensures Loaded(links, p) && (Canonical(p) in met + {current.name} || Load(links, p).value in queue)
      {
        CanonicalLoads(links, p);
      }
    }

    lemma NothingMissing(start: Name, visited: set<Name>)
      requires Expanded(visited, []) && start in visited && Loaded(links, start) && Canonical(start) == start
      ensures forall p: Name :: !MissingAbove(links, start, p)
    {
      forall p: Name ensures !MissingAbove(links, start, p) {
        if MissingAbove(links, start, p) {
          var s :| Supertype(links, start, s) && Parent(links, s, p);
          var k: nat :| SupertypeWithin(links, start, s, k);
          ClosedHoldsAll(links, visited, start, s, k);
          CanonicalLoads(links, s);
          assert Parent(links, Canonical(s), p);
        }
      }
    }

    ghost predicate QueueOk(start: Name, queue: seq<ClassInfo>) {
      forall c :: c in queue ==>
        Load(links, c.name) == Some(c) && Supertype(links, start, c.name) && c.name in Reachable(start)
    }

    /** The parents of every visited class have loaded and are visited or queued. */
    ghost predicate Expanded(visited: set<Name>, queue: seq<ClassInfo>) {
      forall v, p :: v in visited && Parent(links, v, p) ==>
        Loaded(links, p) && (Canonical(p) in visited || Load(links, p).value in queue)
    }

    /** The parents of one class join the queue, unless one of them is missing. */
    method Enqueue(current: ClassInfo, queue: seq<ClassInfo>, ghost start: Name)
      returns (r: Option<Name>, grown: seq<ClassInfo>)
      requires Valid() && QueueOk(start, queue)
      requires Load(links, current.name) == Some(current) && Supertype(links, start, current.name)
      modifies this
      ensures Valid() && QueueOk(start, grown) && queue <= grown
      ensures r.Some? ==> MissingAbove(links, start, r.value)
      ensures r.None? ==>
        forall p :: Parent(links, current.name, p) ==> Loaded(links, p) && Load(links, p).value in grown
    {
      grown := queue;
      var parents := current.interfaces + if current.superName.Some? then [current.superName.value] else [];
      ParentsListed(current, parents);
      for i := 0 to |parents|
        invariant Valid() && QueueOk(start, grown) && queue <= grown
        invariant AllJoined(parents[..i], grown)
      {
        assert parents[i] in parents;
        var parentInfo := Info(parents[i]);
        if parentInfo.None? {
          return Some(parents[i]), grown;
        }
        ParentJoins(start, current, parents[i], parentInfo.value);
        OneMoreJoined(parents, i, grown, parentInfo.value);
        grown := grown + [parentInfo.value];
      }
      assert parents[..|parents|] == parents;
      return None, grown;
    }

    ghost predicate AllJoined(parents: seq<Name>, queue: seq<ClassInfo>) {
      forall p :: p in parents ==> Loaded(links, p) && Load(links, p).value in queue
    }

    lemma OneMoreJoined(parents: seq<Name>, i: nat, queue: seq<ClassInfo>, info: ClassInfo)
      requires i < |parents| && AllJoined(parents[..i], queue) && Load(links, parents[i]) == Some(info)
      ensures AllJoined(parents[..i + 1], queue + [info])
    {
      assert parents[..i + 1] == parents[..i] + [parents[i]];
    }

    lemma ParentJoins(start: Name, current: ClassInfo, p: Name, info: ClassInfo)
      requires Load(links, current.name) == Some(current) && Supertype(links, start, current.name)
      requires Parent(links, current.name, p) && p in ListedIn(current) && Load(links, p) == Some(info)
      ensures QueueOk(start, [info])
    {
      ParentIsSupertype(links, start, current.name, p);
      CanonicalLoads(links, p);
      LoadListed(links, current.name);
    }

    lemma ParentsListed(current: ClassInfo, parents: seq<Name>)
      requires Load(links, current.name) == Some(current)
      requires parents == current.interfaces + if current.superName.Some? then [current.superName.value] else []
      ensures forall p :: p in parents <==> Parent(links, current.name, p)
      ensures forall p :: p in parents ==> p in ListedIn(current)
    {
    }

    // ------------------------------------------------ member lookup

    method FindField(owner: ClassInfo, key: string, ghost rank: Name -> nat, ghost n: Name)
      returns (r: Option<Member>)
      requires Valid() && Ranked(links, rank, n) && Load(links, n) == Some(owner)
      modifies this
      ensures Valid() && r == FieldIn(links, rank, n, key)
      decreases rank(n), 1
    {
      if key in owner.fields {
        return Some(owner.fields[key]);
      }
      r := FindFieldInInterfaces(owner, key, rank, n);
      if r.Some? { return; }
      if owner.superName.None? { return None; }
      assert Parent(links, n, owner.superName.value);
      var superInfo := Info(owner.superName.value);
      if superInfo.None? { return None; }
      RankFalls(links, rank, n, owner.superName.value);
      r := FindField(superInfo.value, key, rank, owner.superName.value);
    }

    method FindFieldInInterfaces(owner: ClassInfo, key: string, ghost rank: Name -> nat, ghost n: Name)
      returns (r: Option<Member>)
      requires Valid() && Ranked(links, rank, n) && Load(links, n) == Some(owner)
      modifies this
      ensures Valid() && r == FieldInList(links, rank, n, owner.interfaces, key)
      decreases rank(n), 0
    {
      for i := 0 to |owner.interfaces|
        invariant Valid()
        invariant FieldInList(links, rank, n, owner.interfaces, key)
               == FieldInList(links, rank, n, owner.interfaces[i..], key)
      {
        assert Parent(links, n, owner.interfaces[i]);
        assert owner.interfaces[i..][0] == owner.interfaces[i];
        assert owner.interfaces[i..][1..] == owner.interfaces[i + 1..];
        var parentInfo := Info(owner.interfaces[i]);
        if parentInfo.Some? {
          RankFalls(links, rank, n, owner.interfaces[i]);
          r := FindField(parentInfo.value, key, rank, owner.interfaces[i]);
          if r.Some? { return; }
        }
      }
      return None;
    }

    method FindClassMethod(owner: ClassInfo, name: string, desc: string, ghost up: Name -> nat, ghost n: Name)
      returns (r: Option<Member>)
      requires Valid() && SuperRanked(links, up, n) && Load(links, n) == Some(owner)
      modifies this
      ensures Valid() && r == ClassMethod(links, up, n, name, desc)
    {
      var current := Some(owner);
      ghost var at := n;
      while current.Some?
        invariant Valid()
        invariant current.Some? ==> Load(links, at) == current && SuperRanked(links, up, at)
        invariant current.Some? ==> ClassChain(links, up, n, name, desc) == ClassChain(links, up, at, name, desc)
        invariant current.None? ==> ClassChain(links, up, n, name, desc) == None
        decreases if current.Some? then up(at) + 1 else 0
      {
        var c := current.value;
        if name + desc in c.methods {
          return Some(c.methods[name + desc]);
        }
        var polymorphic := PolymorphicMember(c, name);
        if polymorphic.Some? {
          return polymorphic;
        }
        current := None;
        if c.superName.Some? {
          current := Info(c.superName.value);
          if current.Some? {
            UpFalls(links, up, at);
          }
          at := c.superName.value;
        }
      }
      var visited := new NameSet();
      r := FindSuperinterfaceMethod(owner, name + desc, visited, up, n);
    }

    method FindInterfaceMethod(owner: ClassInfo, key: string, ghost up: Name -> nat, ghost n: Name)
      returns (r: Option<Member>)
      requires Valid() && SuperRanked(links, up, n) && Load(links, n) == Some(owner)
      modifies this
      ensures Valid() && r == InterfaceMethod(links, up, n, key)
    {
      if key in owner.methods {
        return Some(owner.methods[key]);
      }
      var object_ := Info(OBJECT);
      if object_.Some? && key in object_.value.methods {
        var objectMethod := object_.value.methods[key];
        if objectMethod.isPublic && !objectMethod.isStatic {
          return Some(objectMethod);
        }
      }
      var visited := new NameSet();
      r := FindSuperinterfaceMethod(owner, key, visited, up, n);
    }

    method FindSuperinterfaceMethod(owner: ClassInfo, key: string, visited: NameSet,
                                    ghost up: Name -> nat, ghost n: Name)
      returns (r: Option<Member>)
      requires Valid() && SuperRanked(links, up, n) && Load(links, n) == Some(owner)
      modifies this, visited
      ensures Valid() && (r, visited.names) == SearchChain(links, up, n, key, old(visited.names))
      decreases Unmet(links, visited.names), up(n), 2, 0
    {
      var current := Some(owner);
      ghost var at := n;
      while current.Some?
        invariant Valid() && visited.names >= old(visited.names)
        invariant current.Some? ==> Load(links, at) == current && SuperRanked(links, up, at) && up(at) <= up(n)
        invariant SearchChain(links, up, n, key, old(visited.names)) ==
          if current.Some? then SearchChain(links, up, at, key, visited.names) else (None, visited.names)
        decreases if current.Some? then up(at) + 1 else 0
      {
        var c := current.value;
        UnmetFalls(links, old(visited.names), visited.names);
        r := SearchInterfaces(c, key, visited, up, at);
        if r.Some? { return; }
        current := None;
        if c.superName.Some? {
          current := Info(c.superName.value);
          if current.Some? {
            UpFalls(links, up, at);
          }
          at := c.superName.value;
        }
      }
      return None;
    }

    /** The inner loop: the direct interfaces of one class, each with everything above it. */
    method SearchInterfaces(c: ClassInfo, key: string, visited: NameSet, ghost up: Name -> nat, ghost n: Name)
      returns (r: Option<Member>)
      requires Valid() && SuperRanked(links, up, n) && Load(links, n) == Some(c)
      modifies this, visited
      ensures forall p :: p in c.interfaces ==> p in Listed(links) && Parent(links, n, p)
      ensures Valid() && (r, visited.names) == SearchList(links, up, n, c.interfaces, key, old(visited.names))
      decreases Unmet(links, visited.names), up(n), 1, 0
    {
      InterfacesListed(links, n);
      for i := 0 to |c.interfaces|
        invariant Valid() && visited.names >= old(visited.names)
        invariant SearchList(links, up, n, c.interfaces, key, old(visited.names))
               == SearchList(links, up, n, c.interfaces[i..], key, visited.names)
      {
        var parent := c.interfaces[i];
        if parent in visited.names { continue; }
        UnmetFalls(links, old(visited.names), visited.names + {parent});
        SuperRankedAbove(links, up, n, parent);
        visited.names := visited.names + {parent};
        var parentInfo := Info(parent);
        if parentInfo.None? { continue; }
        if key in parentInfo.value.methods {
          var declared := parentInfo.value.methods[key];
          if !declared.isPrivate && !declared.isStatic {
            return Some(declared);
          }
        }
        r := FindSuperinterfaceMethod(parentInfo.value, key, visited, up, parent);
        if r.Some? { return; }
      }
      return None;
    }
  }
}
