/**
 publish_portable_pair: two files replaced one after the other, the second as the commit marker of the
 first, with a rollback when anything raises.
 */
module Publish {
  import opened Common
  import opened FileSystem
  import opened PublishPlan

  /** What to publish. */
  datatype Job = Job(output: Path, portable: Contents, manifest: Path, manifestText: Contents)

  /** The local variables that track how far a publication has come. */
  datatype Progress = Progress(
    htmlTemporary: Option<Path>, manifestTemporary: Option<Path>,
    htmlBackup: Option<Path>, manifestBackup: Option<Path>,
    htmlReplaced: bool, manifestReplaced: bool)

  const START := Progress(None, None, None, None, false, false)

  /** What is at a path, given the progress. */
  ghost function ExpectedAt(base: Files, j: Job, s: Progress, leaked: Option<Path>, cut: Cut, p: Path)
    : Option<Contents>
  {
    if p == j.output then (if s.htmlReplaced || cut == AtHtml then Some(j.portable) else Get(base, p))
    else if p == j.manifest then
      (if s.manifestReplaced || cut == AtManifest then Some(j.manifestText) else Get(base, p))
    else if s.htmlTemporary == Some(p) && cut != AtHtml then Some(j.portable)
    else if s.manifestTemporary == Some(p) && cut != AtManifest then Some(j.manifestText)
    else if s.htmlBackup == Some(p) then Get(base, j.output)
    else if s.manifestBackup == Some(p) then Get(base, j.manifest)
    else if leaked == Some(p) then Some([])
    else Get(base, p)
  }

  /** A temporary name is new and its own. */
  ghost predicate New(base: Files, j: Job, p: Option<Path>, others: seq<Option<Path>>) {
    p.Some? ==> p.value !in base && p.value != j.output && p.value != j.manifest && p !in others
  }

  ghost predicate Named(base: Files, j: Job, s: Progress, leaked: Option<Path>) {
    && New(base, j, s.htmlTemporary, [])
    && New(base, j, s.manifestTemporary, [s.htmlTemporary])
    && New(base, j, s.htmlBackup, [s.htmlTemporary, s.manifestTemporary])
    && New(base, j, s.manifestBackup, [s.htmlTemporary, s.manifestTemporary, s.htmlBackup])
    && New(base, j, leaked, [s.htmlTemporary, s.manifestTemporary, s.htmlBackup, s.manifestBackup])
  }

  ghost predicate Tracks(base: Files, j: Job, files: Files, s: Progress, leaked: Option<Path>, cut: Cut) {
    && Named(base, j, s, leaked)
    && forall p :: Get(files, p) == ExpectedAt(base, j, s, leaked, cut, p)
  }

  /** The commit rule: a manifest that has changed stands beside the new HTML. */
  ghost predicate MarkerOrder(base: Files, j: Job, files: Files) {
    Get(files, j.manifest) != Get(base, j.manifest) ==> Get(files, j.output) == Some(j.portable)
  }

  /** The commit rule holds now and at every state since the first n. */
  ghost predicate Orderly(base: Files, j: Job, disk: Disk, n: nat)
    reads disk
  {
    && n <= |disk.seen| && MarkerOrder(base, j, disk.files)
    && forall i :: n <= i < |disk.seen| ==> MarkerOrder(base, j, disk.seen[i])
  }

  /** Temporary files carry names of their own. */
  ghost predicate Apart(j: Job, disk: Disk) {
    && disk.Valid()
    && forall k, taken ::
         disk.temporaryName(k, taken) != j.output.name && disk.temporaryName(k, taken) != j.manifest.name
  }

  /** The two files of a job are the same in both states. */
  ghost predicate SamePair(j: Job, a: Files, b: Files) {
    Get(a, j.output) == Get(b, j.output) && Get(a, j.manifest) == Get(b, j.manifest)
  }

  // ------------------------------------------------------ the helpers

  /** The walk w has ended: at an exception, after which only cleaning up has happened. */
  ghost predicate Stopped(disk: Disk, w: Walked, clean: bool)
    reads disk
  {
    w.Raised? && w.Next() <= disk.clock && (disk.Quiet(w.Next()) ==> clean)
  }

  /** Writing, fsync and close. */
  method Fill(disk: Disk, name: Path, text: Contents, ghost base: Files, ghost j: Job, ghost n: nat,
              ghost w: Walked, ghost rest: seq<Step>)
    returns (raised: bool)
    requires Orderly(base, j, disk, n) && name != j.output && name != j.manifest
    requires w == Walk(disk.fault, disk.clock, Copying(rest))
    modifies disk
    ensures Orderly(base, j, disk, n) && SamePair(j, old(disk.files), disk.files)
    ensures disk.files - {name} == old(disk.files) - {name}
    ensures !raised ==> disk.files == old(disk.files)[name := text] && w == Walk(disk.fault, disk.clock, rest)
    ensures raised ==> w.Raised? && w.Next() == disk.clock && !w.step.Leaks() && !w.step.Replaces()
  {
    WalkOn(disk.fault, disk.clock, Step.Fill, [Sync] + ([Close] + rest));
    raised := disk.Write(name, text);
    if !raised {
      raised := SyncAndClose(disk, base, j, n, w, rest);
    }
  }

  method SyncAndClose(disk: Disk, ghost base: Files, ghost j: Job, ghost n: nat, ghost w: Walked, ghost rest: seq<Step>)
    returns (raised: bool)
    requires Orderly(base, j, disk, n) && w == Walk(disk.fault, disk.clock, [Sync] + ([Close] + rest))
    modifies disk
    ensures Orderly(base, j, disk, n) && disk.files == old(disk.files)
    ensures !raised ==> w == Walk(disk.fault, disk.clock, rest)
    ensures raised ==> w.Raised? && w.Next() == disk.clock && !w.step.Leaks() && !w.step.Replaces()
  {
    WalkOn(disk.fault, disk.clock, Sync, [Close] + rest);
    raised := disk.Check();
    if !raised {
      WalkOn(disk.fault, disk.clock, Close, rest);
      raised := disk.Check();
    }
  }

  /** Removes what an unfinished helper left behind. */
  method Discard(disk: Disk, name: Path, ghost before: Files, ghost base: Files, ghost j: Job, ghost n: nat)
    returns (ghost clean: bool)
    requires Orderly(base, j, disk, n) && name != j.output && name != j.manifest
    requires name !in before && disk.files - {name} == before
    modifies disk
    ensures Orderly(base, j, disk, n) && SamePair(j, old(disk.files), disk.files)
    ensures clean ==> disk.files == before
    ensures disk.clock == old(disk.clock) + 1 && (disk.Quiet(old(disk.clock)) ==> clean)
  {
    var stuck := disk.Unlink(name);
    clean := !stuck;
  }

  /** _prepare_text: a complete temporary file, or none. */
  method PrepareText(disk: Disk, target: Path, text: Contents, ghost base: Files, ghost j: Job, ghost n: nat,
                     ghost w: Walked, ghost rest: seq<Step>)
    returns (raised: bool, temporary: Option<Path>, ghost clean: bool)
    requires Apart(j, disk) && Orderly(base, j, disk, n)
    requires w == Walk(disk.fault, disk.clock, Preparing(rest))
    modifies disk
    ensures Orderly(base, j, disk, n) && SamePair(j, old(disk.files), disk.files)
    ensures raised <==> temporary == None
    ensures !raised ==>
      temporary.value !in old(disk.files) && temporary.value != j.output && temporary.value != j.manifest
    ensures !raised ==> disk.files == old(disk.files)[temporary.value := text]
    ensures !raised ==> w == Walk(disk.fault, disk.clock, rest)
    ensures raised ==> Stopped(disk, w, clean) && !w.step.Leaks() && !w.step.Replaces()
    ensures raised && clean ==> disk.files == old(disk.files)
  {
    ghost var before := disk.files;
    var name;
    WalkOn(disk.fault, disk.clock, Make, Copying(rest));
    raised, name := disk.Create(target.parent);
    if raised {
      return true, None, true;
    }
    assert disk.files - {name} == before;
    raised := Fill(disk, name, text, base, j, n, w, rest);
    if raised {
      clean := Discard(disk, name, before, base, j, n);
      return true, None, clean;
    }
    temporary, clean := Some(name), true;
  }

  /** The guarded half of _backup_path. */
  method Duplicate(disk: Disk, path: Path, name: Path, ghost base: Files, ghost j: Job, ghost n: nat,
                   ghost w: Walked, ghost rest: seq<Step>)
    returns (raised: bool, ghost clean: bool)
    requires Orderly(base, j, disk, n) && name != j.output && name != j.manifest
    requires path in disk.files && name !in disk.files
    requires w == Walk(disk.fault, disk.clock, [LinkBackup] + rest)
    modifies disk
    ensures Orderly(base, j, disk, n) && SamePair(j, old(disk.files), disk.files)
    ensures !raised ==> disk.files == old(disk.files)[name := old(disk.files)[path]]
    ensures !raised ==> w == Walk(disk.fault, disk.clock, rest)
    ensures raised ==> Stopped(disk, w, clean) && !w.step.Leaks() && !w.step.Replaces()
    ensures raised && clean ==> disk.files == old(disk.files)
  {
    ghost var before := disk.files;
    WalkOn(disk.fault, disk.clock, LinkBackup, rest);
    raised := disk.Link(path, name);
    if raised {
      raised := Fill(disk, name, disk.files[path], base, j, n, w, rest);
    }
    clean := true;
    if raised {
      assert disk.files - {name} == before;
      clean := Discard(disk, name, before, base, j, n);
    }
  }

  /** The unguarded half: a name of its own, by making a file and removing it again. */
  method Reserve(disk: Disk, path: Path, ghost base: Files, ghost j: Job, ghost n: nat,
                 ghost w: Walked, ghost rest: seq<Step>)
    returns (raised: bool, name: Path, ghost leaked: Option<Path>)
    requires Apart(j, disk) && Orderly(base, j, disk, n)
    requires w == Walk(disk.fault, disk.clock, BackingUp(true, rest))
    modifies disk
    ensures Orderly(base, j, disk, n) && SamePair(j, old(disk.files), disk.files)
    ensures name !in old(disk.files) && name != j.output && name != j.manifest && name.parent == path.parent
    ensures !raised ==> leaked == None && disk.files == old(disk.files)
    ensures !raised ==> w == Walk(disk.fault, disk.clock, [LinkBackup] + rest)
    ensures raised ==> Stopped(disk, w, true) && !w.step.Replaces()
    ensures raised ==> leaked == if w.step.Leaks() then Some(name) else None
    ensures raised ==> disk.files == if leaked == None then old(disk.files) else old(disk.files)[name := []]
  {
    ghost var before := disk.files;
    leaked := None;
    WalkOn(disk.fault, disk.clock, MakeBackup, [CloseBackup] + ([UnmakeBackup] + ([LinkBackup] + rest)));
    raised, name := disk.Create(path.parent);
    if !raised {
      raised := Release(disk, name, base, j, n, w, [LinkBackup] + rest);
      leaked := if raised then Some(name) else None;
      assert !raised ==> disk.files == before;
    }
  }

  /** Closing and removing the file made by mkstemp: it stays behind exactly when one of them raises. */
  method Release(disk: Disk, name: Path, ghost base: Files, ghost j: Job, ghost n: nat,
                 ghost w: Walked, ghost rest: seq<Step>)
    returns (raised: bool)
    requires Orderly(base, j, disk, n) && name != j.output && name != j.manifest
    requires w == Walk(disk.fault, disk.clock, [CloseBackup] + ([UnmakeBackup] + rest))
    modifies disk
    ensures Orderly(base, j, disk, n)
    ensures disk.files == if raised then old(disk.files) else old(disk.files) - {name}
    ensures !raised ==> w == Walk(disk.fault, disk.clock, rest)
    ensures raised ==> w.Raised? && w.Next() == disk.clock && w.step.Leaks()
  {
    WalkOn(disk.fault, disk.clock, CloseBackup, [UnmakeBackup] + rest);
    raised := disk.Check();
    if !raised {
      WalkOn(disk.fault, disk.clock, UnmakeBackup, rest);
      raised := disk.Unlink(name);
    }
  }

  /** _backup_path: a second name for an existing file, by link or else by copy. */
  method BackupPath(disk: Disk, path: Path, ghost base: Files, ghost j: Job, ghost n: nat,
                    ghost w: Walked, ghost rest: seq<Step>)
    returns (raised: bool, backup: Option<Path>, ghost leaked: Option<Path>, ghost clean: bool)
    requires Apart(j, disk) && Orderly(base, j, disk, n)
    requires w == Walk(disk.fault, disk.clock, BackingUp(path in disk.files, rest))
    modifies disk
    ensures Orderly(base, j, disk, n) && SamePair(j, old(disk.files), disk.files)
    ensures !raised ==> leaked == None && (backup == None <==> path !in old(disk.files))
    ensures !raised ==> w == Walk(disk.fault, disk.clock, rest)
    ensures raised ==> backup == None && Stopped(disk, w, clean) && !w.step.Replaces()
    ensures raised ==> (leaked != None <==> w.step.Leaks())
    ensures forall p :: p == backup || p == leaked ==> p.Some? ==>
      p.value !in old(disk.files) && p.value != j.output && p.value != j.manifest && p.value.parent == path.parent
    ensures !raised ==>
      disk.files == if backup == None then old(disk.files) else old(disk.files)[backup.value := old(disk.files)[path]]
    ensures raised && clean ==>
      disk.files == if leaked == None then old(disk.files) else old(disk.files)[leaked.value := []]
  {
    if path !in disk.files {
      return false, None, None, true;
    }
    var name;
    raised, name, leaked := Reserve(disk, path, base, j, n, w, rest);
    if raised {
      return true, None, leaked, true;
    }
    raised, clean := Duplicate(disk, path, name, base, j, n, w, rest);
    backup := if raised then None else Some(name);
  }

  // ------------------------------------------- one step of progress

  lemma TrackHtmlTemporary(base: Files, j: Job, files: Files, p: Path, after: Files)
    requires files == base && p !in base && p != j.output && p != j.manifest && after == base[p := j.portable]
    ensures Tracks(base, j, after, START.(htmlTemporary := Some(p)), None, Never)
  {
  }

  lemma TrackManifestTemporary(base: Files, j: Job, files: Files, s: Progress, p: Path, after: Files)
    requires Tracks(base, j, files, s, None, Never) && s.manifestTemporary == s.htmlBackup == s.manifestBackup == None
    requires p !in files && p != j.output && p != j.manifest && after == files[p := j.manifestText]
    ensures Tracks(base, j, after, s.(manifestTemporary := Some(p)), None, Never)
  {
    NewPath(base, j, files, s, p);
    assert forall q :: Get(after, q) == if q == p then Some(j.manifestText) else Get(files, q);
  }

  /** All paths named so far exist, so a new path differs from them. */
  lemma NamedExist(base: Files, j: Job, files: Files, s: Progress)
    requires Tracks(base, j, files, s, None, Never)
    requires s.htmlBackup != None ==> j.output in base
    ensures s.htmlTemporary != None ==> s.htmlTemporary.value in files
    ensures s.manifestTemporary != None ==> s.manifestTemporary.value in files
    ensures s.htmlBackup != None ==> s.htmlBackup.value in files
  {
    if s.htmlTemporary != None {
      assert Get(files, s.htmlTemporary.value) == Some(j.portable);
    }
    if s.manifestTemporary != None {
      assert Get(files, s.manifestTemporary.value) == Some(j.manifestText);
    }
    if s.htmlBackup != None {
      assert Get(files, s.htmlBackup.value) == Get(base, j.output);
    }
  }

  /** A path that is not on the disk is new in every respect. */
  lemma NewPath(base: Files, j: Job, files: Files, s: Progress, p: Path)
    requires Tracks(base, j, files, s, None, Never) && p !in files && p != j.output && p != j.manifest
    requires s.manifestBackup == None && (s.htmlBackup != None ==> j.output in base)
    ensures p !in base && New(base, j, Some(p), [s.htmlTemporary, s.manifestTemporary, s.htmlBackup, s.manifestBackup])
  {
    NamedExist(base, j, files, s);
    assert Get(files, p) == None;
  }

  lemma TrackHtmlBackup(base: Files, j: Job, files: Files, s: Progress, p: Path, after: Files)
    requires Tracks(base, j, files, s, None, Never) && s.htmlBackup == s.manifestBackup == None && !s.htmlReplaced
    requires p !in files && p !in base && p != j.output && p != j.manifest && j.output in base
    requires after == files[p := base[j.output]]
    ensures Tracks(base, j, after, s.(htmlBackup := Some(p)), None, Never)
  {
    assert forall q :: Get(after, q) == if q == p then Get(base, j.output) else Get(files, q);
    NamedExist(base, j, files, s);
  }

  lemma TrackManifestBackup(base: Files, j: Job, files: Files, s: Progress, p: Path, after: Files)
    requires Tracks(base, j, files, s, None, Never) && s.manifestBackup == None
    requires s.htmlBackup != None ==> j.output in base
    requires p !in files && p !in base && p != j.output && p != j.manifest && j.manifest in base
    requires after == files[p := base[j.manifest]]
    ensures Tracks(base, j, after, s.(manifestBackup := Some(p)), None, Never)
  {
    assert forall q :: Get(after, q) == if q == p then Get(base, j.manifest) else Get(files, q);
    NamedExist(base, j, files, s);
  }

  lemma TrackLeak(base: Files, j: Job, files: Files, s: Progress, p: Path, after: Files)
    requires Tracks(base, j, files, s, None, Never) && s.manifestBackup == None
    requires s.htmlBackup != None ==> j.output in base
    requires p !in files && p !in base && p != j.output && p != j.manifest
    requires after == files[p := []]
    ensures Tracks(base, j, after, s, Some(p), Never)
  {
    assert forall q :: Get(after, q) == if q == p then Some([]) else Get(files, q);
    NamedExist(base, j, files, s);
  }

  lemma TrackHtml(base: Files, j: Job, files: Files, s: Progress, after: Files)
    requires Tracks(base, j, files, s, None, Never) && s.htmlTemporary.Some? && j.output != j.manifest
    requires s.htmlTemporary.value in files
    requires after == files[j.output := files[s.htmlTemporary.value]] - {s.htmlTemporary.value}
    ensures Tracks(base, j, after, s.(htmlTemporary := None, htmlReplaced := true), None, Never)
    ensures Tracks(base, j, after, s, None, AtHtml)
  {
    var src := s.htmlTemporary.value;
    assert forall q ::
      Get(after, q) == if q == src then None else if q == j.output then Get(files, src) else Get(files, q);
    assert Get(files, s.htmlTemporary.value) == Some(j.portable);
  }

  lemma TrackManifest(base: Files, j: Job, files: Files, s: Progress, after: Files)
    requires Tracks(base, j, files, s, None, Never) && s.manifestTemporary.Some? && s.htmlTemporary == None
    requires j.output != j.manifest
    requires s.manifestTemporary.value in files
    requires after == files[j.manifest := files[s.manifestTemporary.value]] - {s.manifestTemporary.value}
    ensures Tracks(base, j, after, s.(manifestTemporary := None, manifestReplaced := true), None, Never)
    ensures Tracks(base, j, after, s, None, AtManifest)
  {
    var src := s.manifestTemporary.value;
    assert forall q ::
      Get(after, q) == if q == src then None else if q == j.manifest then Get(files, src) else Get(files, q);
    assert Get(files, s.manifestTemporary.value) == Some(j.manifestText);
  }

  // ------------------------------------------------- the publication

  /** The four preparations in the try. */
  method Prepare(disk: Disk, j: Job, ghost base: Files, ghost n: nat, ghost w: Walked)
    returns (raised: bool, s: Progress, ghost leaked: Option<Path>, ghost clean: bool)
    requires Apart(j, disk) && Orderly(base, j, disk, n) && disk.files == base && j.output != j.manifest
    requires w == Walk(disk.fault, disk.clock, Plan(j.output in base, j.manifest in base))
    modifies disk
    ensures Orderly(base, j, disk, n) && Named(base, j, s, leaked) && SamePair(j, base, disk.files)
    ensures !raised || clean ==> Tracks(base, j, disk.files, s, leaked, Never)
    ensures !s.htmlReplaced && !s.manifestReplaced
    ensures !raised ==> leaked == None && s.htmlTemporary.Some? && s.manifestTemporary.Some? && Backed(base, j, s)
    ensures !raised ==> w == Walk(disk.fault, disk.clock, Committing())
    ensures raised ==> StoppedEarly(disk, j, w, leaked, clean)
  {
    s, leaked, clean := START, None, true;
    assert Tracks(base, j, disk.files, s, leaked, Never);
    var made;
    ghost var before, backups := disk.files, BackingUp(j.output in base, BackingUp(j.manifest in base, Committing()));
    raised, made, clean := PrepareText(disk, j.output, j.portable, base, j, n, w, Preparing(backups));
    if raised {
      return;
    }
    TrackHtmlTemporary(base, j, before, made.value, disk.files);
    s, before := s.(htmlTemporary := made), disk.files;
    raised, made, clean := PrepareText(disk, j.manifest, j.manifestText, base, j, n, w, backups);
    if raised {
      return;
    }
    TrackManifestTemporary(base, j, before, s, made.value, disk.files);
    s := s.(manifestTemporary := made);
    raised, s, leaked, clean := Backups(disk, j, s, base, n, w);
  }

  /** A file has a backup exactly when it was there. */
  ghost predicate Backed(base: Files, j: Job, s: Progress) {
    (s.htmlBackup == None <==> j.output !in base) && (s.manifestBackup == None <==> j.manifest !in base)
  }

  /** An exception before the first replacement. */
  ghost predicate StoppedEarly(disk: Disk, j: Job, w: Walked, leaked: Option<Path>, clean: bool)
    reads disk
  {
    && Stopped(disk, w, clean) && !w.step.Replaces()
    && (leaked != None <==> w.step.Leaks())
    && (leaked != None ==> leaked.value.parent in {j.output.parent, j.manifest.parent})
  }

  /** The two backups. */
  method Backups(disk: Disk, j: Job, t: Progress, ghost base: Files, ghost n: nat, ghost w: Walked)
    returns (raised: bool, s: Progress, ghost leaked: Option<Path>, ghost clean: bool)
    requires Apart(j, disk) && Orderly(base, j, disk, n) && j.output != j.manifest && SamePair(j, base, disk.files)
    requires Tracks(base, j, disk.files, t, None, Never) && t.htmlBackup == t.manifestBackup == None
    requires !t.htmlReplaced && !t.manifestReplaced
    requires w == Walk(disk.fault, disk.clock, BackingUp(j.output in base, BackingUp(j.manifest in base, Committing())))
    modifies disk
    ensures Orderly(base, j, disk, n) && Named(base, j, s, leaked) && SamePair(j, base, disk.files)
    ensures !raised || clean ==> Tracks(base, j, disk.files, s, leaked, Never)
    ensures s == t.(htmlBackup := s.htmlBackup, manifestBackup := s.manifestBackup)
    ensures !raised ==> leaked == None && Backed(base, j, s)
    ensures !raised ==> w == Walk(disk.fault, disk.clock, Committing())
    ensures raised ==> StoppedEarly(disk, j, w, leaked, clean)
  {
    s := t;
    var made;
    ghost var before := disk.files;
    assert Get(before, j.output) == Get(base, j.output);
    raised, made, leaked, clean := BackupPath(disk, j.output, base, j, n, w,
      BackingUp(j.manifest in base, Committing()));
    if leaked != None {
      NewPath(base, j, before, s, leaked.value);
      if clean { TrackLeak(base, j, before, s, leaked.value, disk.files); }
    }
    if raised {
      return;
    }
    if made != None {
      NewPath(base, j, before, s, made.value);
      TrackHtmlBackup(base, j, before, s, made.value, disk.files);
    }
    s := s.(htmlBackup := made);
    raised, s, leaked, clean := BackupManifest(disk, j, s, base, n, w);
  }

  method BackupManifest(disk: Disk, j: Job, t: Progress, ghost base: Files, ghost n: nat, ghost w: Walked)
    returns (raised: bool, s: Progress, ghost leaked: Option<Path>, ghost clean: bool)
    requires Apart(j, disk) && Orderly(base, j, disk, n) && j.output != j.manifest && SamePair(j, base, disk.files)
    requires Tracks(base, j, disk.files, t, None, Never) && t.manifestBackup == None
    requires !t.htmlReplaced && !t.manifestReplaced && (t.htmlBackup == None <==> j.output !in base)
    requires w == Walk(disk.fault, disk.clock, BackingUp(j.manifest in base, Committing()))
    modifies disk
    ensures Orderly(base, j, disk, n) && Named(base, j, s, leaked) && SamePair(j, base, disk.files)
    ensures !raised || clean ==> Tracks(base, j, disk.files, s, leaked, Never)
    ensures s == t.(manifestBackup := s.manifestBackup)
    ensures !raised ==> leaked == None && Backed(base, j, s)
    ensures !raised ==> w == Walk(disk.fault, disk.clock, Committing())
    ensures raised ==> StoppedEarly(disk, j, w, leaked, clean)
  {
    s := t;
    var made;
    ghost var before := disk.files;
    assert Get(before, j.manifest) == Get(base, j.manifest);
    raised, made, leaked, clean := BackupPath(disk, j.manifest, base, j, n, w, Committing());
    if leaked != None {
      NewPath(base, j, before, s, leaked.value);
      if clean { TrackLeak(base, j, before, s, leaked.value, disk.files); }
    }
    if raised {
      return;
    }
    if made != None {
      NewPath(base, j, before, s, made.value);
      TrackManifestBackup(base, j, before, s, made.value, disk.files);
    }
    s := s.(manifestBackup := made);
  }

  /** The flags record the replacements in order, but for a cut. */
  ghost predicate Recorded(s: Progress, cut: Cut) {
    && (s.manifestReplaced ==> s.htmlReplaced && cut == Never)
    && (cut == AtHtml ==> !s.htmlReplaced)
    && (cut == AtManifest ==> s.htmlReplaced && !s.manifestReplaced)
  }

  /** The two replacements in the try. */
  method Commit(disk: Disk, j: Job, t: Progress, ghost base: Files, ghost n: nat, ghost w: Walked)
    returns (raised: bool, s: Progress)
    requires Orderly(base, j, disk, n) && j.output != j.manifest
    requires Tracks(base, j, disk.files, t, None, Never) && !t.htmlReplaced && !t.manifestReplaced
    requires t.htmlTemporary != None && t.manifestTemporary != None
    requires w == Walk(disk.fault, disk.clock, Committing())
    modifies disk
    ensures Orderly(base, j, disk, n) && Tracks(base, j, disk.files, s, None, CutOf(disk.fault, w))
    ensures s.htmlBackup == t.htmlBackup && s.manifestBackup == t.manifestBackup
    ensures Recorded(s, CutOf(disk.fault, w))
    ensures !raised ==> w == Through(disk.clock) && s.manifestReplaced && s.htmlTemporary == s.manifestTemporary == None
    ensures raised ==> Stopped(disk, w, true) && !w.step.Leaks()
  {
    raised, s := CommitHtml(disk, j, t, base, n, w, [SyncDirectory] + CommittingManifest());
    if !raised {
      raised := SyncDirectoryOf(disk, base, j, n, w, CommittingManifest());
    }
    if !raised {
      raised, s := CommitSecond(disk, j, s, base, n, w);
    }
  }

  /** The manifest and the directory after it. */
  method CommitSecond(disk: Disk, j: Job, t: Progress, ghost base: Files, ghost n: nat, ghost w: Walked)
    returns (raised: bool, s: Progress)
    requires Orderly(base, j, disk, n) && j.output != j.manifest
    requires Tracks(base, j, disk.files, t, None, Never) && t.htmlReplaced && !t.manifestReplaced
    requires t.htmlTemporary == None && t.manifestTemporary != None
    requires w == Walk(disk.fault, disk.clock, CommittingManifest())
    modifies disk
    ensures Orderly(base, j, disk, n) && Tracks(base, j, disk.files, s, None, CutOf(disk.fault, w))
    ensures s == t || s == t.(manifestTemporary := None, manifestReplaced := true)
    ensures Recorded(s, CutOf(disk.fault, w))
    ensures !raised ==> w == Through(disk.clock) && s.manifestReplaced
    ensures raised ==> Stopped(disk, w, true) && !w.step.Leaks()
  {
    raised, s := CommitManifest(disk, j, t, base, n, w, [SyncDirectory] + []);
    if !raised {
      raised := SyncDirectoryOf(disk, base, j, n, w, []);
    }
  }

  method CommitHtml(disk: Disk, j: Job, t: Progress, ghost base: Files, ghost n: nat, ghost w: Walked,
                    ghost rest: seq<Step>)
    returns (raised: bool, s: Progress)
    requires Orderly(base, j, disk, n) && j.output != j.manifest
    requires Tracks(base, j, disk.files, t, None, Never) && !t.htmlReplaced && !t.manifestReplaced
    requires t.htmlTemporary != None
    requires w == Walk(disk.fault, disk.clock, [ReplaceHtml] + rest)
    modifies disk
    ensures Orderly(base, j, disk, n)
    ensures !raised ==>
      s == t.(htmlTemporary := None, htmlReplaced := true) && Tracks(base, j, disk.files, s, None, Never)
    ensures raised ==> s == t && Tracks(base, j, disk.files, s, None, CutOf(disk.fault, w))
    ensures !raised ==> w == Walk(disk.fault, disk.clock, rest)
    ensures raised ==> w == Raised(old(disk.clock), ReplaceHtml) && disk.clock == old(disk.clock) + 1
  {
    s := t;
    ghost var before := disk.files;
    assert Get(before, s.htmlTemporary.value) == Some(j.portable);
    WalkOn(disk.fault, disk.clock, ReplaceHtml, rest);
    raised := disk.Replace(s.htmlTemporary.value, j.output);
    if !disk.fault(old(disk.clock)).Fails? {
      TrackHtml(base, j, before, s, disk.files);
    }
    if !raised {
      s := s.(htmlTemporary := None, htmlReplaced := true);
    }
  }

  method CommitManifest(disk: Disk, j: Job, t: Progress, ghost base: Files, ghost n: nat, ghost w: Walked,
                        ghost rest: seq<Step>)
    returns (raised: bool, s: Progress)
    requires Orderly(base, j, disk, n) && j.output != j.manifest
    requires Tracks(base, j, disk.files, t, None, Never) && t.htmlReplaced && !t.manifestReplaced
    requires t.htmlTemporary == None && t.manifestTemporary != None
    requires w == Walk(disk.fault, disk.clock, [ReplaceManifest] + rest)
    modifies disk
    ensures Orderly(base, j, disk, n)
    ensures !raised ==>
      s == t.(manifestTemporary := None, manifestReplaced := true) && Tracks(base, j, disk.files, s, None, Never)
    ensures raised ==> s == t && Tracks(base, j, disk.files, s, None, CutOf(disk.fault, w))
    ensures !raised ==> w == Walk(disk.fault, disk.clock, rest)
    ensures raised ==> w == Raised(old(disk.clock), ReplaceManifest) && disk.clock == old(disk.clock) + 1
  {
    s := t;
    ghost var before := disk.files;
    assert Get(before, s.manifestTemporary.value) == Some(j.manifestText);
    assert Get(before, j.output) == Some(j.portable);
    WalkOn(disk.fault, disk.clock, ReplaceManifest, rest);
    raised := disk.Replace(s.manifestTemporary.value, j.manifest);
    if !disk.fault(old(disk.clock)).Fails? {
      TrackManifest(base, j, before, s, disk.files);
      assert Get(disk.files, j.output) == Some(j.portable);
    }
    if !raised {
      s := s.(manifestTemporary := None, manifestReplaced := true);
    }
  }

  /** _fsync_directory. */
  method SyncDirectoryOf(disk: Disk, ghost base: Files, ghost j: Job, ghost n: nat, ghost w: Walked,
                         ghost rest: seq<Step>)
    returns (raised: bool)
    requires Orderly(base, j, disk, n) && w == Walk(disk.fault, disk.clock, [SyncDirectory] + rest)
    modifies disk
    ensures Orderly(base, j, disk, n) && disk.files == old(disk.files)
    ensures !raised ==> w == Walk(disk.fault, disk.clock, rest)
    ensures raised ==> w == Raised(old(disk.clock), SyncDirectory) && disk.clock == old(disk.clock) + 1
  {
    WalkOn(disk.fault, disk.clock, SyncDirectory, rest);
    raised := disk.Check();
  }

  /** One file is put back: from its backup, or by removing it when there was none. */
  ghost predicate PutBack(files: Files, target: Path, backup: Option<Path>, after: Files) {
    if backup == None then after == files - {target}
    else backup.value in files && after == files[target := files[backup.value]] - {backup.value}
  }

  method Restore(disk: Disk, target: Path, backup: Option<Path>) returns (raised: bool)
    requires backup != Some(target) && (backup != None ==> backup.value in disk.files)
    modifies disk
    ensures disk.Ticked(old(disk.clock), old(disk.seen)) && (raised <==> disk.fault(old(disk.clock)) != Works)
    ensures PutBack(old(disk.files), target, backup, disk.files) || (raised && disk.files == old(disk.files))
  {
    if backup == None {
      raised := disk.Unlink(target);
    } else {
      raised := disk.Replace(backup.value, target);
    }
  }

  lemma TrackManifestRestored(base: Files, j: Job, files: Files, s: Progress, after: Files)
    requires Tracks(base, j, files, s, None, Never) && s.manifestReplaced && j.output != j.manifest
    requires s.manifestBackup == None <==> j.manifest !in base
    requires PutBack(files, j.manifest, s.manifestBackup, after)
    ensures Tracks(base, j, after, s.(manifestBackup := None, manifestReplaced := false), None, Never)
  {
    if s.manifestBackup == None {
      assert forall q :: Get(after, q) == if q == j.manifest then None else Get(files, q);
    } else {
      var src := s.manifestBackup.value;
      assert Get(files, src) == Get(base, j.manifest);
      assert forall q ::
        Get(after, q) == if q == src then None else if q == j.manifest then Get(files, src) else Get(files, q);
    }
  }

  lemma TrackHtmlRestored(base: Files, j: Job, files: Files, s: Progress, cut: Cut, after: Files)
    requires Tracks(base, j, files, s, None, cut) && s.htmlReplaced && cut != AtHtml && j.output != j.manifest
    requires s.htmlBackup == None <==> j.output !in base
    requires PutBack(files, j.output, s.htmlBackup, after)
    ensures Tracks(base, j, after, s.(htmlBackup := None, htmlReplaced := false), None, cut)
  {
    if s.htmlBackup == None {
      assert forall q :: Get(after, q) == if q == j.output then None else Get(files, q);
    } else {
      var src := s.htmlBackup.value;
      assert Get(files, src) == Get(base, j.output);
      assert forall q ::
        Get(after, q) == if q == src then None else if q == j.output then Get(files, src) else Get(files, q);
    }
  }

  lemma OrderOf(base: Files, j: Job, files: Files, s: Progress, leaked: Option<Path>, cut: Cut)
    requires Tracks(base, j, files, s, leaked, cut)
    requires s.manifestReplaced || cut == AtManifest ==> s.htmlReplaced
    ensures MarkerOrder(base, j, files)
  {
    assert Get(files, j.manifest) == ExpectedAt(base, j, s, leaked, cut, j.manifest);
    assert Get(files, j.output) == ExpectedAt(base, j, s, leaked, cut, j.output);
  }

  /** The progress on entry to the except branch. */
  ghost predicate Failed(base: Files, j: Job, files: Files, s: Progress, leaked: Option<Path>, cut: Cut) {
    && Named(base, j, s, leaked) && j.output != j.manifest && Recorded(s, cut)
    && (s.htmlReplaced ==> Tracks(base, j, files, s, None, cut) && leaked == None && Backed(base, j, s))
  }

  /** The except branch: manifest first, then HTML, then an fsync that may raise but changes nothing. */
  method Rollback(disk: Disk, j: Job, t: Progress, ghost base: Files, ghost n: nat, ghost leaked: Option<Path>,
                  ghost cut: Cut)
    returns (s: Progress, failed: bool)
    requires Orderly(base, j, disk, n) && Failed(base, j, disk.files, t, leaked, cut)
    modifies disk
    ensures n <= |disk.seen| && (cut != AtManifest ==> Orderly(base, j, disk, n))
    ensures Named(base, j, s, leaked) && old(disk.clock) <= disk.clock
    ensures !t.htmlReplaced ==> !failed && s == t && disk.files == old(disk.files)
    ensures !failed && t.htmlReplaced ==>
      Tracks(base, j, disk.files, s.(htmlReplaced := false, manifestReplaced := false), None, cut)
    ensures disk.Quiet(old(disk.clock)) ==> !failed
  {
    s, failed := t, false;
    ghost var was := disk.files;
    ghost var u := s;
    var raised;
    if s.manifestReplaced {
      assert s.manifestBackup != None ==> Get(was, s.manifestBackup.value) == Get(base, j.manifest);
      raised := Restore(disk, j.manifest, s.manifestBackup);
      if PutBack(was, j.manifest, s.manifestBackup, disk.files) {
        u := s.(manifestBackup := None, manifestReplaced := false);
        TrackManifestRestored(base, j, was, s, disk.files);
        OrderOf(base, j, disk.files, u, None, cut);
      }
      if raised {
        return s, true;
      }
      s := s.(manifestBackup := None);
    }
    if s.htmlReplaced {
      s, failed := RollbackHtml(disk, j, s, base, n, cut);
      if failed {
        return;
      }
    }
    raised := disk.Check();
  }

  method RollbackHtml(disk: Disk, j: Job, t: Progress, ghost base: Files, ghost n: nat, ghost cut: Cut)
    returns (s: Progress, failed: bool)
    requires Orderly(base, j, disk, n) && j.output != j.manifest && cut != AtHtml && t.htmlReplaced
    requires Tracks(base, j, disk.files, t.(manifestReplaced := false), None, cut)
    requires t.htmlBackup == None <==> j.output !in base
    modifies disk
    ensures n <= |disk.seen| && (cut != AtManifest ==> Orderly(base, j, disk, n))
    ensures Named(base, j, s, None) && disk.clock == old(disk.clock) + 1
    ensures !failed ==> Tracks(base, j, disk.files, s.(htmlReplaced := false, manifestReplaced := false), None, cut)
    ensures failed <==> disk.fault(old(disk.clock)) != Works
  {
    s := t;
    ghost var was, u := disk.files, t.(manifestReplaced := false);
    assert s.htmlBackup != None ==> Get(was, s.htmlBackup.value) == Get(base, j.output);
    var raised := Restore(disk, j.output, s.htmlBackup);
    failed := raised;
    if PutBack(was, j.output, s.htmlBackup, disk.files) {
      TrackHtmlRestored(base, j, was, u, cut, disk.files);
      if cut != AtManifest {
        OrderOf(base, j, disk.files, u.(htmlBackup := None, htmlReplaced := false), None, cut);
      }
    }
    if !raised {
      s := s.(htmlBackup := None);
    }
  }

  // ---------------------------------------------------------- the end

  /** The paths that the finally branch removes. */
  ghost function Leftovers(s: Progress): set<Path> {
    Only(s.htmlTemporary) + Only(s.manifestTemporary) + Only(s.htmlBackup) + Only(s.manifestBackup)
  }

  ghost function Only(p: Option<Path>): set<Path> {
    if p == None then {} else {p.value}
  }

  /** The finally branch: stops at the first removal that raises. */
  method Cleanup(disk: Disk, s: Progress, ghost base: Files, ghost j: Job, ghost n: nat, ghost leaked: Option<Path>)
    returns (raised: bool)
    requires n <= |disk.seen| && Named(base, j, s, leaked)
    modifies disk
    ensures n <= |disk.seen| && (old(Orderly(base, j, disk, n)) ==> Orderly(base, j, disk, n))
    ensures SamePair(j, old(disk.files), disk.files) && old(disk.clock) <= disk.clock
    ensures !raised ==> disk.files == old(disk.files) - Leftovers(s)
    ensures raised <==> !disk.Quiet(old(disk.clock))
  {
    raised := CleanupTwo(disk, s.htmlTemporary, s.manifestTemporary, base, j, n);
    if !raised {
      raised := CleanupTwo(disk, s.htmlBackup, s.manifestBackup, base, j, n);
    }
  }

  method CleanupTwo(disk: Disk, p: Option<Path>, q: Option<Path>, ghost base: Files, ghost j: Job, ghost n: nat)
    returns (raised: bool)
    requires n <= |disk.seen| && p != Some(j.output) && p != Some(j.manifest)
    requires q != Some(j.output) && q != Some(j.manifest)
    modifies disk
    ensures n <= |disk.seen| && (old(Orderly(base, j, disk, n)) ==> Orderly(base, j, disk, n))
    ensures SamePair(j, old(disk.files), disk.files) && old(disk.clock) <= disk.clock
    ensures !raised ==> disk.files == old(disk.files) - (Only(p) + Only(q))
    ensures raised <==> !disk.Quiet(old(disk.clock))
  {
    raised := CleanupOne(disk, p, base, j, n);
    if !raised {
      raised := CleanupOne(disk, q, base, j, n);
    }
  }

  method CleanupOne(disk: Disk, p: Option<Path>, ghost base: Files, ghost j: Job, ghost n: nat) returns (raised: bool)
    requires n <= |disk.seen| && p != Some(j.output) && p != Some(j.manifest)
    modifies disk
    ensures n <= |disk.seen| && (old(Orderly(base, j, disk, n)) ==> Orderly(base, j, disk, n))
    ensures SamePair(j, old(disk.files), disk.files) && old(disk.clock) <= disk.clock
    ensures !raised ==> disk.files == old(disk.files) - Only(p)
    ensures raised <==> !disk.Quiet(old(disk.clock))
  {
    raised := false;
    if p != None {
      raised := disk.Unlink(p.value);
    }
  }

  /** What a publication that cleaned up after itself leaves on the disk. */
  ghost function Ending(base: Files, j: Job, html: bool, manifest: bool, leaked: Option<Path>): Files {
    var a := if html then base[j.output := j.portable] else base;
    var b := if manifest then a[j.manifest := j.manifestText] else a;
    if leaked == None then b else b[leaked.value := []]
  }

  /** Where the oracle leads a publication that starts at tick c, when its rollback and cleanup work. */
  ghost function Outcome(base: Files, j: Job, fault: Oracle, c: nat, leaked: Option<Path>): Files {
    var w := Walk(fault, c, Plan(j.output in base, j.manifest in base));
    var cut := CutOf(fault, w);
    Ending(base, j, w.Through? || cut == AtHtml, w.Through? || cut == AtManifest, leaked)
  }

  /**
   The commit rule holds there unless the manifest's replacement was interrupted: then the HTML is
   rolled back and the manifest is not.
   */
  lemma CommitRuleExactly(base: Files, j: Job, fault: Oracle, c: nat, leaked: Option<Path>)
    requires j.output != j.manifest && New(base, j, leaked, [])
    ensures MarkerOrder(base, j, Outcome(base, j, fault, c, leaked)) <==>
      || CutOf(fault, Walk(fault, c, Plan(j.output in base, j.manifest in base))) != AtManifest
      || Get(base, j.manifest) == Some(j.manifestText) || Get(base, j.output) == Some(j.portable)
  {
  }

  lemma EndsAt(base: Files, j: Job, files: Files, s: Progress, leaked: Option<Path>, cut: Cut)
    requires Tracks(base, j, files, s, leaked, cut) && j.output != j.manifest
    ensures files - Leftovers(s) ==
      Ending(base, j, s.htmlReplaced || cut == AtHtml, s.manifestReplaced || cut == AtManifest, leaked)
  {
    forall q
      ensures Get(files - Leftovers(s), q) ==
        Get(Ending(base, j, s.htmlReplaced || cut == AtHtml, s.manifestReplaced || cut == AtManifest, leaked), q)
    {
      EndsAtPath(base, j, files, s, leaked, cut, q);
    }
    SameFiles(files - Leftovers(s),
      Ending(base, j, s.htmlReplaced || cut == AtHtml, s.manifestReplaced || cut == AtManifest, leaked));
  }

  lemma EndsAtPath(base: Files, j: Job, files: Files, s: Progress, leaked: Option<Path>, cut: Cut, q: Path)
    requires Tracks(base, j, files, s, leaked, cut) && j.output != j.manifest
    ensures Get(files - Leftovers(s), q) ==
      Get(Ending(base, j, s.htmlReplaced || cut == AtHtml, s.manifestReplaced || cut == AtManifest, leaked), q)
  {
    assert Get(files, q) == ExpectedAt(base, j, s, leaked, cut, q);
    assert q in Leftovers(s) <==> Some(q) in [s.htmlTemporary, s.manifestTemporary, s.htmlBackup, s.manifestBackup];
  }

  lemma SameFiles(a: Files, b: Files)
    requires forall q :: Get(a, q) == Get(b, q)
    ensures a == b
  {
    forall q
      ensures q in a <==> q in b
      ensures q in a ==> a[q] == b[q]
    {
      assert Get(a, q) == Get(b, q);
    }
  }

  /** What the try, the rollback and the cleanup have done by the time the function is left. */
  ghost predicate Published(base: Files, j: Job, disk: Disk, c: nat, w: Walked, raised: bool,
                            leaked: Option<Path>, clean: bool)
    reads disk
  {
    && c <= w.Next() <= disk.clock
    // Rollback and cleanup work when no operation after the try raises.
    && (disk.Quiet(w.Next()) ==> clean)
    && (raised <==> w.Raised? || !clean)
    && (clean ==> disk.files == Outcome(base, j, disk.fault, c, leaked))
    // The commit rule holds at the end unless the manifest's replacement was interrupted and both contents are new.
    && (clean ==> (MarkerOrder(base, j, disk.files) <==>
         || CutOf(disk.fault, w) != AtManifest
         || Get(base, j.manifest) == Some(j.manifestText) || Get(base, j.output) == Some(j.portable)))
    // A try that got through leaves both files new, whatever its cleanup does.
    && (w.Through? ==>
         Get(disk.files, j.output) == Some(j.portable) && Get(disk.files, j.manifest) == Some(j.manifestText))
    // One failing operation never spoils the rollback.
    && (disk.OneFailure(c) && w.Raised? ==> clean)
    // An empty backup file is left behind exactly when closing or removing it raised.
    && (leaked != None <==> w.Raised? && w.step.Leaks())
    && (leaked != None ==> leaked.value !in base && leaked.value.parent == j.output.parent)
  }

  /** The body of the try. */
  method Attempt(disk: Disk, j: Job, ghost base: Files, ghost n: nat, ghost w: Walked)
    returns (raised: bool, s: Progress, ghost leaked: Option<Path>, ghost clean: bool)
    requires Apart(j, disk) && Orderly(base, j, disk, n) && disk.files == base && j.output != j.manifest
    requires w == Walk(disk.fault, disk.clock, Plan(j.output in base, j.manifest in base))
    modifies disk
    ensures Orderly(base, j, disk, n) && Failed(base, j, disk.files, s, leaked, CutOf(disk.fault, w))
    ensures clean ==> Tracks(base, j, disk.files, s, leaked, CutOf(disk.fault, w))
    ensures !raised ==> clean && w == Through(disk.clock) && leaked == None && s.manifestReplaced
    ensures raised ==> Stopped(disk, w, clean) && (leaked != None <==> w.step.Leaks())
    ensures leaked != None ==> leaked.value.parent in {j.output.parent, j.manifest.parent}
  {
    raised, s, leaked, clean := Prepare(disk, j, base, n, w);
    if !raised {
      clean := true;
      raised, s := Commit(disk, j, s, base, n, w);
    }
  }

  /** Publishes the HTML first and its manifest last. */
  method PublishPortablePair(disk: Disk, j: Job)
    returns (raised: bool, ghost w: Walked, ghost leaked: Option<Path>, ghost clean: bool)
    requires Apart(j, disk) && j.output != j.manifest
    modifies disk
    ensures j.output.parent != j.manifest.parent ==> raised && unchanged(disk)
    // The oracle alone decides where the try ends.
    ensures w == Walk(disk.fault, old(disk.clock), Plan(j.output in old(disk.files), j.manifest in old(disk.files)))
    ensures j.output.parent == j.manifest.parent ==>
      Published(old(disk.files), j, disk, old(disk.clock), w, raised, leaked, clean)
    // At every point, rollbacks that fail included, a changed manifest stands beside the new HTML.
    ensures CutOf(disk.fault, w) != AtManifest ==> Orderly(old(disk.files), j, disk, |old(disk.seen)|)
  {
    ghost var base, n := disk.files, |disk.seen|;
    w := Walk(disk.fault, disk.clock, Plan(j.output in base, j.manifest in base));
    WalkLater(disk.fault, disk.clock, Plan(j.output in base, j.manifest in base));
    leaked, clean := None, true;
    if j.output.parent != j.manifest.parent {
      return true, w, None, true;
    }
    var s;
    raised, s, leaked, clean := Attempt(disk, j, base, n, w);
    ghost var u, cut := s, CutOf(disk.fault, w);
    if raised {
      var failed;
      s, failed := Rollback(disk, j, s, base, n, leaked, cut);
      clean := clean && !failed;
      u := s.(htmlReplaced := false, manifestReplaced := false);
    }
    if clean {
      EndsAt(base, j, disk.files, u, leaked, cut);
      CommitRuleExactly(base, j, disk.fault, old(disk.clock), leaked);
    }
    var stuck := Cleanup(disk, s, base, j, n, leaked);
    raised, clean := raised || stuck, clean && !stuck;
  }

  /**
   The failure happens: whenever both files were there, and nothing raises but an interrupt of the 19th
   operation, the run ends with the new manifest beside the old HTML.
   */
  method InterruptedRun(base: Files, j: Job, temporaryName: (nat, set<nat>) -> nat) returns (disk: Disk)
    requires j.output != j.manifest && j.output.parent == j.manifest.parent && j.output in base && j.manifest in base
    requires base[j.output] != j.portable && base[j.manifest] != j.manifestText
    requires forall k, taken: set<nat> :: temporaryName(k, taken) !in taken + {j.output.name, j.manifest.name}
    ensures disk.files == base[j.manifest := j.manifestText] && !MarkerOrder(base, j, disk.files)
  {
    disk := new Disk(base, k => if k == 18 then Interrupted else Works, temporaryName);
    CutExactly(disk.fault, 0, true, true);
    ghost var w, leaked, clean;
    var raised;
    raised, w, leaked, clean := PublishPortablePair(disk, j);
    CommitRuleExactly(base, j, disk.fault, 0, leaked);
  }
}
