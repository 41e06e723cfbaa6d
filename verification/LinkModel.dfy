/** What LinkGapScanner reads: class roots, the names TeaVM gives to JDK classes, and class lookup. */
module LinkModel {
  import opened Common

  type Name = string

  datatype Member = Member(isPublic: bool, isPrivate: bool, isStatic: bool, isNative: bool, isVarargs: bool)

  /** methods is keyed by name and descriptor, fields likewise, methodsByName by the name alone. */
  datatype ClassInfo = ClassInfo(
    name: Name, superName: Option<Name>, interfaces: seq<Name>,
    fields: map<string, Member>, methods: map<string, Member>, methodsByName: map<string, Member>)

  /** What a class root yields for an internal name, parsed. */
  type Root = map<Name, ClassInfo>

  /** A link model: the library is the running JDK, or the TeaVM class library. */
  datatype Links = Links(teavm: bool, subjects: seq<Root>, classpath: seq<Root>, library: Root)

  const OBJECT: Name := "java/lang/Object"

  predicate StartsWith(s: string, prefix: string) {
    prefix <= s
  }

  // ----------------------------------------------- TeaVM class names

  predicate Substituted(name: Name) {
    StartsWith(name, "java/") || StartsWith(name, "javax/xml/")
  }

  function LastSlash(s: string): (i: int)
    ensures -1 <= i < |s|
    ensures i >= 0 ==> s[i] == '/'
    ensures forall k :: i < k < |s| ==> s[k] != '/'
  {
    if s == [] then -1
    else if s[|s| - 1] == '/' then |s| - 1
    else LastSlash(s[..|s| - 1])
  }

  const THREETEN := "org/threeten/bp/"
  const CLASSLIB := "org/teavm/classlib/"
  const CLASSLIB_JAVA := "org/teavm/classlib/java/"

  function SimpleStart(s: string): nat {
    LastSlash(s) + 1
  }

  function ClasslibName(name: Name): Name {
    CLASSLIB + name[..SimpleStart(name)] + "T" + name[SimpleStart(name)..]
  }

  /** Class library entries that stand for a JDK class, in lookup order. */
  function Candidates(name: Name): seq<Name> {
    (if StartsWith(name, "java/time/") then [THREETEN + name[10..]] else [])
    + (if StartsWith(name, "java/") then [ClasslibName(name)] else [])
  }

  /** For a JDK class, its package below java and its simple name: threeten first, then the T class. */
  lemma CandidatesOf(package: string, simple: string)
    requires '/' !in simple && (package == "" || package[|package| - 1] == '/')
    ensures Candidates("java/" + package + simple) ==
      (if StartsWith(package, "time/") then ["org/threeten/bp/" + package[5..] + simple] else [])
      + ["org/teavm/classlib/java/" + package + "T" + simple]
  {
    var name := "java/" + package + simple;
    assert name[..5] == "java/";
    ClasslibOf(package, simple);
    TimePackage(package, simple, name);
    if StartsWith(package, "time/") {
      assert THREETEN + name[10..] == "org/threeten/bp/" + package[5..] + simple;
    }
  }

  lemma ClasslibOf(package: string, simple: string)
    requires '/' !in simple && (package == "" || package[|package| - 1] == '/')
    ensures ClasslibName("java/" + package + simple) == "org/teavm/classlib/java/" + package + "T" + simple
  {
    var front := "java/" + package;
    var name := front + simple;
    assert name[|front| - 1] == '/';
    forall k | |front| <= k < |name| ensures name[k] != '/' {
      assert name[k] == simple[k - |front|];
    }
    LastSlashUnique(name, |front| - 1);
    assert name[..|front|] == front && name[|front|..] == simple;
    assert CLASSLIB + front == "org/teavm/classlib/java/" + package;
  }

  lemma TimePackage(package: string, simple: string, name: Name)
    requires name == "java/" + package + simple && '/' !in simple
    requires package == "" || package[|package| - 1] == '/'
    ensures StartsWith(name, "java/time/") <==> StartsWith(package, "time/")
    ensures StartsWith(package, "time/") ==> name[10..] == package[5..] + simple
  {
    forall k | 5 + |package| <= k < |name| ensures name[k] != '/' {
      assert name[k] == simple[k - 5 - |package|];
    }
    assert name[5..] == package + simple;
    if StartsWith(name, "java/time/") {
      assert name[9] == '/' && name[5..10] == "time/";
      assert package[..5] == name[5..10];
    }
    if StartsWith(package, "time/") {
      assert name[..10] == "java/" + package[..5];
    }
  }

  /** The JDK name that a class library name implements. */
  function JdkName(name: Name): Name {
    if StartsWith(name, THREETEN) then "java/time/" + name[16..]
    else if StartsWith(name, CLASSLIB_JAVA) then
      var simple := name[SimpleStart(name)..];
      if |simple| > 1 && simple[0] == 'T' then name[19..SimpleStart(name)] + simple[1..] else name
    else name
  }

  lemma LastSlashUnique(s: string, i: int)
    requires 0 <= i < |s| && s[i] == '/'
    requires forall k :: i < k < |s| ==> s[k] != '/'
    ensures LastSlash(s) == i
  {
    if LastSlash(s) < i { assert s[i] == '/'; }
  }

  lemma ThreetenMapsBack(name: Name)
    requires StartsWith(name, "java/time/")
    ensures StartsWith(THREETEN + name[10..], THREETEN) && JdkName(THREETEN + name[10..]) == name
  {
    var c := THREETEN + name[10..];
    assert c[16..] == name[10..];
    assert name == "java/time/" + name[10..];
  }

  lemma ClasslibParts(name: Name)
    requires StartsWith(name, "java/")
    ensures var c, start := ClasslibName(name), SimpleStart(name);
      && !StartsWith(c, THREETEN) && StartsWith(c, CLASSLIB_JAVA)
      && start >= 5 && SimpleStart(c) == 19 + start
      && c[19 + start..] == "T" + name[start..] && c[19..19 + start] == name[..start]
  {
    var c, start := ClasslibName(name), SimpleStart(name);
    assert name[4] == '/';
    var front := CLASSLIB + name[..start];
    var simple := "T" + name[start..];
    assert c == front + simple;
    assert c[18 + start] == front[18 + start] == '/';
    forall k | 18 + start < k < |c| ensures c[k] != '/' {
      assert c[k] == simple[k - 19 - start];
    }
    LastSlashUnique(c, 18 + start);
    assert c[..24] == CLASSLIB + name[..5] == CLASSLIB_JAVA;
    assert c[5] == 'e' && THREETEN[5] == 'h';
  }

  lemma ClasslibMapsBack(name: Name)
    requires StartsWith(name, "java/")
    ensures !StartsWith(ClasslibName(name), THREETEN)
    ensures JdkName(ClasslibName(name)) == name <==> SimpleStart(name) < |name|
  {
    var c, start := ClasslibName(name), SimpleStart(name);
    ClasslibParts(name);
    var simple := "T" + name[start..];
    assert simple[1..] == name[start..];
    assert name == name[..start] + name[start..];
  }

  /** Every candidate maps back to the name it stands for, unless it is a class library name for a
      name that ends in a slash. */
  lemma CandidatesMapBack(name: Name, c: Name)
    requires c in Candidates(name)
    ensures JdkName(c) == name <==> (StartsWith(c, THREETEN) || SimpleStart(name) < |name|)
  {
    if StartsWith(name, "java/time/") && c == THREETEN + name[10..] {
      ThreetenMapsBack(name);
    } else {
      OtherCandidate(name, c);
      ClasslibMapsBack(name);
    }
  }

  lemma OtherCandidate(name: Name, c: Name)
    requires c in Candidates(name) && !(StartsWith(name, "java/time/") && c == THREETEN + name[10..])
    ensures StartsWith(name, "java/") && c == ClasslibName(name)
  {
  }

  /** The names that stand for a JDK class. */
  predicate ClasslibForm(name: Name) {
    StartsWith(name, CLASSLIB_JAVA) && SimpleStart(name) + 1 < |name| && name[SimpleStart(name)] == 'T'
  }

  /** Every other name is kept; a name that is mapped is a candidate for the name it is mapped to. */
  lemma MappedIsCandidate(name: Name)
    ensures JdkName(name) == name <==> !StartsWith(name, THREETEN) && !ClasslibForm(name)
    ensures JdkName(name) != name ==> name in Candidates(JdkName(name))
  {
    if StartsWith(name, THREETEN) {
      ThreetenIsCandidate(name);
    } else if ClasslibForm(name) {
      ClasslibIsCandidate(name);
    } else {
      OtherKept(name);
    }
  }

  lemma OtherKept(name: Name)
    requires !StartsWith(name, THREETEN) && !ClasslibForm(name)
    ensures JdkName(name) == name
  {
  }

  lemma ThreetenIsCandidate(name: Name)
    requires StartsWith(name, THREETEN)
    ensures JdkName(name) != name && name in Candidates(JdkName(name))
  {
    var jdk := "java/time/" + name[16..];
    assert JdkName(name) == jdk && jdk[..10] == "java/time/" && jdk[10..] == name[16..];
    assert jdk[0] == 'j' && name[0] == 'o';
    assert name == THREETEN + name[16..];
    assert Candidates(jdk)[0] == name;
  }

  /** The package below java and the simple name behind such a name. */
  lemma ClasslibSplit(name: Name) returns (package: string, simple: string)
    requires ClasslibForm(name)
    ensures '/' !in simple && (package == "" || package[|package| - 1] == '/')
    ensures name == "org/teavm/classlib/java/" + package + "T" + simple
    ensures name[19..SimpleStart(name)] == "java/" + package && name[SimpleStart(name)..] == "T" + simple
  {
    var start := SimpleStart(name);
    assert name[..24] == "org/teavm/classlib/java/";
    assert name[23] == '/';
    package, simple := name[24..start], name[start + 1..];
    assert name[19..24] == name[..24][19..] == "java/";
    assert name[19..start] == name[19..24] + name[24..start];
    assert name[start..] == [name[start]] + simple;
    assert name == name[..24] + package + name[start..];
  }

  lemma ClasslibMapped(name: Name, package: string, simple: string)
    requires ClasslibForm(name) && !StartsWith(name, THREETEN)
    requires name[19..SimpleStart(name)] == "java/" + package && name[SimpleStart(name)..] == "T" + simple
    ensures JdkName(name) == "java/" + package + simple
  {
    assert ("T" + simple)[1..] == simple;
  }

  lemma ClasslibIsCandidate(name: Name)
    requires ClasslibForm(name) && !StartsWith(name, THREETEN)
    ensures JdkName(name) != name && name in Candidates(JdkName(name))
  {
    var package, simple := ClasslibSplit(name);
    ClasslibMapped(name, package, simple);
    CandidatesOf(package, simple);
    var found := Candidates("java/" + package + simple);
    assert found[|found| - 1] == name;
    assert JdkName(name)[0] == 'j' && name[0] == 'o';
  }

  // ---------------------------------------------------------- lookup

  function ReadFirst(roots: seq<Root>, name: Name): Option<ClassInfo> {
    if roots == [] then None
    else if name in roots[0] then Some(roots[0][name])
    else ReadFirst(roots[1..], name)
  }

  function ReadCandidates(roots: seq<Root>, names: seq<Name>): Option<ClassInfo> {
    if names == [] then None
    else
      var found := ReadFirst(roots, names[0]);
      if found.Some? then found else ReadCandidates(roots, names[1..])
  }

  function ReadBytes(links: Links, name: Name): Option<ClassInfo> {
    if links.teavm && Substituted(name) then
      ReadCandidates(links.subjects + links.classpath + [links.library], Candidates(name))
    else
      var found := ReadFirst(links.subjects, name);
      if found.Some? then found
      else
        var onPath := ReadFirst(links.classpath, name);
        if onPath.None? && !links.teavm then ReadFirst([links.library], name) else onPath
  }

  // ------------------------------------------------- whose class is read

  ghost predicate Held(roots: seq<Root>, name: Name) {
    exists k :: 0 <= k < |roots| && name in roots[k]
  }

  /** info is what the first root with that name has for it. */
  ghost predicate FirstHolds(roots: seq<Root>, name: Name, info: ClassInfo) {
    exists k :: 0 <= k < |roots| && name in roots[k] && roots[k][name] == info
      && forall j :: 0 <= j < k ==> name !in roots[j]
  }

  /** The first of the names that any root has decides, and then the first root that has it. */
  ghost predicate Yields(roots: seq<Root>, names: seq<Name>, r: Option<ClassInfo>) {
    match r
    case None => forall c :: 0 <= c < |names| ==> !Held(roots, names[c])
    case Some(info) => exists c :: 0 <= c < |names| && FirstHolds(roots, names[c], info)
                         && forall d :: 0 <= d < c ==> !Held(roots, names[d])
  }

  lemma {:induction false} FirstIsRead(roots: seq<Root>, name: Name)
    ensures match ReadFirst(roots, name)
      case None => !Held(roots, name)
      case Some(info) => FirstHolds(roots, name, info)
    decreases |roots|
  {
    if roots != [] && name !in roots[0] {
      var rest := roots[1..];
      FirstIsRead(rest, name);
      match ReadFirst(rest, name)
      case None =>
      case Some(info) =>
        var k :| 0 <= k < |rest| && name in rest[k] && rest[k][name] == info
          && forall j :: 0 <= j < k ==> name !in rest[j];
        assert roots[k + 1] == rest[k];
        assert forall j :: 0 < j <= k ==> roots[j] == rest[j - 1];
    }
  }

  lemma {:induction false} CandidatesAreRead(roots: seq<Root>, names: seq<Name>)
    ensures Yields(roots, names, ReadCandidates(roots, names))
    decreases |names|
  {
    if names != [] {
      var rest := names[1..];
      FirstIsRead(roots, names[0]);
      CandidatesAreRead(roots, rest);
      if ReadFirst(roots, names[0]).None? && ReadCandidates(roots, rest).Some? {
        var info := ReadCandidates(roots, rest).value;
        var c :| 0 <= c < |rest| && FirstHolds(roots, rest[c], info)
          && forall d :: 0 <= d < c ==> !Held(roots, rest[d]);
        assert names[c + 1] == rest[c];
        assert forall d :: 0 < d <= c ==> names[d] == rest[d - 1];
      }
    }
  }

  lemma {:induction false} ReadJoined(a: seq<Root>, b: seq<Root>, name: Name)
    ensures ReadFirst(a + b, name) == if ReadFirst(a, name).Some? then ReadFirst(a, name) else ReadFirst(b, name)
    decreases |a|
  {
    if a == [] {
      assert a + b == b;
    } else {
      assert (a + b)[1..] == a[1..] + b;
      ReadJoined(a[1..], b, name);
    }
  }

  /**
   Subjects come before the class path. The running JDK comes last. Under TeaVM the JDK packages are read under
   the names of their class library entries only, from any root, and everything else from no library at all.
   */
  lemma ReadOrder(links: Links, name: Name)
    ensures links.teavm && (StartsWith(name, "java/") || StartsWith(name, "javax/xml/")) ==>
      Yields(links.subjects + links.classpath + [links.library], Candidates(name), ReadBytes(links, name))
    ensures links.teavm && !StartsWith(name, "java/") && !StartsWith(name, "javax/xml/") ==>
      Yields(links.subjects + links.classpath, [name], ReadBytes(links, name))
    ensures !links.teavm ==>
      Yields(links.subjects + links.classpath + [links.library], [name], ReadBytes(links, name))
  {
    var own := links.subjects + links.classpath;
    CandidatesAreRead(own + [links.library], Candidates(name));
    CandidatesAreRead(own, [name]);
    CandidatesAreRead(own + [links.library], [name]);
    ReadJoined(own, [links.library], name);
    ReadJoined(links.subjects, links.classpath, name);
    OneCandidate(own, name);
    OneCandidate(own + [links.library], name);
  }

  lemma OneCandidate(roots: seq<Root>, name: Name)
    ensures ReadCandidates(roots, [name]) == ReadFirst(roots, name)
  {
    assert [name][1..] == [];
  }

  /** A class library class takes the name it was looked up under; TeaVM's Object has no superclass. */
  function Adopt(links: Links, name: Name, info: ClassInfo): ClassInfo {
    var named := info.(name := name);
    if links.teavm && name == OBJECT then named.(superName := None) else named
  }

  function LoadPlain(links: Links, name: Name): Option<ClassInfo> {
    var found := ReadBytes(links, name);
    if found.None? then None else Some(Adopt(links, name, found.value))
  }

  /** The class behind a name, without caches; every array type stands for Object. */
  function Load(links: Links, name: Name): Option<ClassInfo> {
    if StartsWith(name, "[") then LoadPlain(links, OBJECT) else LoadPlain(links, name)
  }

  /** The name under which a loaded class is known. */
  function Canonical(name: Name): Name {
    if StartsWith(name, "[") then OBJECT else name
  }

  lemma CanonicalLoads(links: Links, name: Name)
    ensures Load(links, Canonical(name)) == Load(links, name)
    ensures Load(links, name).Some? ==> Load(links, name).value.name == Canonical(name)
  {
  }

  /** A class is what was read, under the name asked for; only TeaVM's Object loses its superclass. */
  lemma LoadIsRead(links: Links, name: Name)
    ensures var asked := if StartsWith(name, "[") then "java/lang/Object" else name;
      match ReadBytes(links, asked)
      case None => Load(links, name) == None
      case Some(read) => Load(links, name) == Some(
        ClassInfo(asked, if links.teavm && asked == "java/lang/Object" then None else read.superName, read.interfaces,
          read.fields, read.methods, read.methodsByName))
  {
  }

  // ----------------------------------------------- the names that occur

  function ListedIn(info: ClassInfo): set<Name> {
    (set p | p in info.interfaces) + if info.superName.Some? then {info.superName.value} else {}
  }

  function ListedBy(root: Root): set<Name> {
    set n, p | n in root && p in ListedIn(root[n]) :: p
  }

  function ListedByAll(roots: seq<Root>): set<Name> {
    if roots == [] then {} else ListedBy(roots[0]) + ListedByAll(roots[1..])
  }

  /** The parent names in all classes of a link model; there are finitely many. */
  function Listed(links: Links): set<Name> {
    ListedByAll(links.subjects) + ListedByAll(links.classpath) + ListedBy(links.library)
  }

  lemma {:induction false} ReadFirstListed(roots: seq<Root>, name: Name)
    ensures match ReadFirst(roots, name)
      case None => true
      case Some(info) => ListedIn(info) <= ListedByAll(roots)
    decreases |roots|
  {
    if roots != [] && name !in roots[0] {
      ReadFirstListed(roots[1..], name);
    }
  }

  lemma {:induction false} ReadCandidatesListed(roots: seq<Root>, names: seq<Name>)
    ensures match ReadCandidates(roots, names)
      case None => true
      case Some(info) => ListedIn(info) <= ListedByAll(roots)
    decreases |names|
  {
    if names != [] {
      ReadFirstListed(roots, names[0]);
      ReadCandidatesListed(roots, names[1..]);
    }
  }

  lemma {:induction false} ListedJoined(a: seq<Root>, b: seq<Root>)
    ensures ListedByAll(a + b) == ListedByAll(a) + ListedByAll(b)
    decreases |a|
  {
    if a == [] {
      assert a + b == b;
    } else {
      assert (a + b)[1..] == a[1..] + b;
      ListedJoined(a[1..], b);
    }
  }

  /** A class that loads lists only such names. */
  lemma LoadListed(links: Links, name: Name)
    ensures match Load(links, name)
      case None => true
      case Some(info) => ListedIn(info) <= Listed(links)
  {
    var n := Canonical(name);
    var roots := links.subjects + links.classpath + [links.library];
    ReadCandidatesListed(roots, Candidates(n));
    ListedJoined(links.subjects + links.classpath, [links.library]);
    ListedJoined(links.subjects, links.classpath);
    ReadFirstListed(links.subjects, n);
    ReadFirstListed(links.classpath, n);
    ReadFirstListed([links.library], n);
    assert ListedByAll([links.library]) == ListedBy(links.library) + ListedByAll([links.library][1..]);
    match ReadBytes(links, n)
    case None =>
    case Some(info) => assert ListedIn(Adopt(links, n, info)) <= ListedIn(info) <= Listed(links);
  }
}
