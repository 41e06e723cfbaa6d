/**
 The order of the file operations in the try of publish_portable_pair, and where a run leaves that
 order: at the first operation that raises, except that a link that raises is replaced by a copy.
 */
module PublishPlan {
  import opened FileSystem

  datatype Step =
    | Make | Fill | Sync | Close
    | MakeBackup | CloseBackup | UnmakeBackup | LinkBackup
    | ReplaceHtml | ReplaceManifest | SyncDirectory
  {
    /** The file made by mkstemp is there, outside the guarded half of _backup_path. */
    predicate Leaks() {
      CloseBackup? || UnmakeBackup?
    }

    predicate Replaces() {
      ReplaceHtml? || ReplaceManifest?
    }
  }

  /** Filling a file, then the rest. */
  function Copying(rest: seq<Step>): seq<Step> {
    [Fill] + ([Sync] + ([Close] + rest))
  }

  function Preparing(rest: seq<Step>): seq<Step> {
    [Make] + Copying(rest)
  }

  function BackingUp(exists': bool, rest: seq<Step>): seq<Step> {
    if exists' then [MakeBackup] + ([CloseBackup] + ([UnmakeBackup] + ([LinkBackup] + rest))) else rest
  }

  function CommittingManifest(): seq<Step> {
    [ReplaceManifest] + ([SyncDirectory] + [])
  }

  function Committing(): seq<Step> {
    [ReplaceHtml] + ([SyncDirectory] + CommittingManifest())
  }

  /** The operations of the try, in order, given which of the two files exist. */
  function Plan(html: bool, manifest: bool): seq<Step> {
    Preparing(Preparing(BackingUp(html, BackingUp(manifest, Committing()))))
  }

  /** The try ends by getting through, or by an exception of the operation at a tick. */
  datatype Walked = Through(end: nat) | Raised(tick: nat, step: Step) {
    /** The tick of the next operation. */
    function Next(): nat {
      if Through? then end else tick + 1
    }
  }

  /** The operations that may still come; a link may be followed by the three of a copy. */
  function Weight(steps: seq<Step>): nat {
    if steps == [] then 0 else (if steps[0] == LinkBackup then 4 else 1) + Weight(steps[1..])
  }

  lemma WeightOn(step: Step, rest: seq<Step>)
    ensures Weight([step] + rest) == (if step == LinkBackup then 4 else 1) + Weight(rest)
  {
    assert ([step] + rest)[1..] == rest;
  }

  lemma CopyWeighs(rest: seq<Step>)
    ensures Weight(Copying(rest)) == 3 + Weight(rest)
  {
    WeightOn(Close, rest);
    WeightOn(Sync, [Close] + rest);
    WeightOn(Fill, [Sync] + ([Close] + rest));
  }

  /** Where the operations end that start at tick c. */
  function Walk(fault: Oracle, c: nat, steps: seq<Step>): Walked
    decreases Weight(steps)
  {
    if steps == [] then Through(c)
    else if fault(c) == Works then Walk(fault, c + 1, steps[1..])
    else if steps[0] == LinkBackup then
      CopyWeighs(steps[1..]);
      Walk(fault, c + 1, Copying(steps[1..]))
    else Raised(c, steps[0])
  }

  /** One operation. */
  lemma WalkOn(fault: Oracle, c: nat, step: Step, rest: seq<Step>)
    ensures Walk(fault, c, [step] + rest) ==
      if fault(c) == Works then Walk(fault, c + 1, rest)
      else if step == LinkBackup then Walk(fault, c + 1, Copying(rest))
      else Raised(c, step)
  {
    assert ([step] + rest)[1..] == rest;
  }

  /** The replacement, if any, that is interrupted after it took effect but before it is recorded. */
  datatype Cut = Never | AtHtml | AtManifest

  function CutOf(fault: Oracle, w: Walked): Cut {
    if w.Through? || fault(w.tick) != Interrupted then Never
    else if w.step == ReplaceHtml then AtHtml
    else if w.step == ReplaceManifest then AtManifest
    else Never
  }

  /** An exception comes from an operation since the start that does not work. */
  lemma {:induction false} WalkLater(fault: Oracle, c: nat, steps: seq<Step>)
    ensures Walk(fault, c, steps).Next() >= c
    ensures Walk(fault, c, steps).Raised? ==>
      Walk(fault, c, steps).tick >= c && fault(Walk(fault, c, steps).tick) != Works
    decreases Weight(steps)
  {
    if steps != [] && (fault(c) == Works || steps[0] == LinkBackup) {
      CopyWeighs(steps[1..]);
      WalkLater(fault, c + 1, if fault(c) == Works then steps[1..] else Copying(steps[1..]));
    }
  }

  /** Four operations that all work. */
  lemma PreparingClear(fault: Oracle, c: nat, rest: seq<Step>)
    requires forall k :: c <= k < c + 4 ==> fault(k) == Works
    ensures Walk(fault, c, Preparing(rest)) == Walk(fault, c + 4, rest)
  {
    WalkOn(fault, c, Make, Copying(rest));
    WalkOn(fault, c + 1, Fill, [Sync] + ([Close] + rest));
    WalkOn(fault, c + 2, Sync, [Close] + rest);
    WalkOn(fault, c + 3, Close, rest);
  }

  lemma BackingUpClear(fault: Oracle, c: nat, exists': bool, rest: seq<Step>)
    requires forall k :: c <= k < c + Backup(exists') ==> fault(k) == Works
    ensures Walk(fault, c, BackingUp(exists', rest)) == Walk(fault, c + Backup(exists'), rest)
  {
    if exists' {
      WalkOn(fault, c, MakeBackup, [CloseBackup] + ([UnmakeBackup] + ([LinkBackup] + rest)));
      WalkOn(fault, c + 1, CloseBackup, [UnmakeBackup] + ([LinkBackup] + rest));
      WalkOn(fault, c + 2, UnmakeBackup, [LinkBackup] + rest);
      WalkOn(fault, c + 3, LinkBackup, rest);
    }
  }

  /** How many operations a backup takes when its link works. */
  function Backup(exists': bool): nat {
    if exists' then 4 else 0
  }

  /** How many there are before the first replacement. */
  function Preparation(html: bool, manifest: bool): nat {
    8 + Backup(html) + Backup(manifest)
  }

  /**
   After preparations that work, the replacement of the manifest is cut off exactly when it is
   interrupted itself and the two operations before it work.
   */
  lemma CutExactly(fault: Oracle, c: nat, html: bool, manifest: bool)
    requires forall k :: c <= k < c + Preparation(html, manifest) ==> fault(k) == Works
    ensures var d := c + Preparation(html, manifest);
      CutOf(fault, Walk(fault, c, Plan(html, manifest))) ==
      if fault(d) == Interrupted then AtHtml
      else if fault(d) == Works && fault(d + 1) == Works && fault(d + 2) == Interrupted then AtManifest
      else Never
    ensures var d := c + Preparation(html, manifest);
      fault(d) == Works && fault(d + 1) == Works && fault(d + 2) != Works ==>
        Walk(fault, c, Plan(html, manifest)) == Raised(d + 2, ReplaceManifest)
  {
    PlanClear(fault, c, html, manifest);
    CommittingEnds(fault, c + Preparation(html, manifest));
  }

  lemma PlanClear(fault: Oracle, c: nat, html: bool, manifest: bool)
    requires forall k :: c <= k < c + Preparation(html, manifest) ==> fault(k) == Works
    ensures Walk(fault, c, Plan(html, manifest)) == Walk(fault, c + Preparation(html, manifest), Committing())
  {
    BothPreparedClear(fault, c, BackingUp(html, BackingUp(manifest, Committing())));
    BothBackedUpClear(fault, c + 8, html, manifest, Committing());
  }

  lemma BothPreparedClear(fault: Oracle, c: nat, rest: seq<Step>)
    requires forall k :: c <= k < c + 8 ==> fault(k) == Works
    ensures Walk(fault, c, Preparing(Preparing(rest))) == Walk(fault, c + 8, rest)
  {
    PreparingClear(fault, c, Preparing(rest));
    PreparingClear(fault, c + 4, rest);
  }

  lemma BothBackedUpClear(fault: Oracle, c: nat, html: bool, manifest: bool, rest: seq<Step>)
    requires forall k :: c <= k < c + Backup(html) + Backup(manifest) ==> fault(k) == Works
    ensures Walk(fault, c, BackingUp(html, BackingUp(manifest, rest))) ==
      Walk(fault, c + Backup(html) + Backup(manifest), rest)
  {
    BackingUpClear(fault, c, html, BackingUp(manifest, rest));
    BackingUpClear(fault, c + Backup(html), manifest, rest);
  }

  lemma CommittingEnds(fault: Oracle, d: nat)
    ensures Walk(fault, d, Committing()) ==
      if fault(d) != Works then Raised(d, ReplaceHtml)
      else if fault(d + 1) != Works then Raised(d + 1, SyncDirectory)
      else if fault(d + 2) != Works then Raised(d + 2, ReplaceManifest)
      else if fault(d + 3) != Works then Raised(d + 3, SyncDirectory)
      else Through(d + 4)
  {
    WalkOn(fault, d, ReplaceHtml, [SyncDirectory] + CommittingManifest());
    WalkOn(fault, d + 1, SyncDirectory, CommittingManifest());
    WalkOn(fault, d + 2, ReplaceManifest, [SyncDirectory] + []);
    WalkOn(fault, d + 3, SyncDirectory, []);
  }
}
