/**
 The localStorage lease by which at most one browser tab runs the client.
 Any number of tabs interleave single storage accesses over one shared record and one clock.
 */
module RuntimeLease {
  import opened Common

  /** The stored JSON value; a malformed one reads as None. */
  datatype Record = Record(id: nat, at: int)

  const EXPIRY: int := 10000
  const SETTLE: int := 80

  /** How far one call of acquireGaiusRuntimeLease has come. Every call draws a fresh id. */
  datatype Phase =
    | Idle
    | Looking(readAt: int, seen: Option<Record>)
    | Cleared(readAt: int)
    | Waiting(wroteAt: int, stamp: int)
    | Held(wroteAt: int, stamp: int)
    | Releasing(wroteAt: int, stamp: int)
    | Gone

  datatype State = State(
    now: int,
    record: Option<Record>,
    tabs: map<nat, Phase>,
    // History: the last racer that wrote, the calls that set the flag of their window, those that died,
    // those that died or finished their release, and the window each call was made in.
    lastWriter: Option<nat>,
    flagged: set<nat>,
    crashed: set<nat>,
    ended: set<nat>,
    windows: map<nat, nat>)
  {
    /** The flag that a window keeps for good once a call in it has acquired the lease. */
    ghost predicate Flag(w: nat) {
      exists c :: c in flagged && CalledIn(c, w)
    }

    predicate CalledIn(c: nat, w: nat) {
      c in windows && windows[c] == w
    }

    function Tab(i: nat): Phase {
      if i in tabs then tabs[i] else Idle
    }

    function With(i: nat, p: Phase): State {
      this.(tabs := tabs[i := p])
    }
  }

  /** The timing assumptions: a tab that writes does so at most `gap` ms after its read, and
      a living tab replaces the time stamp in its record before it is more than `live` ms old. */
  datatype Timing = Timing(gap: nat, live: nat)

  datatype Event =
    | Tick(ms: nat)
    | Return(i: nat, w: nat)
    | Read(i: nat, w: nat)
    | Decide(i: nat)
    | Write(i: nat, stamp: int)
    | Verify(i: nat)
    | Beat(i: nat, stamp: int)
    | ReleaseRead(i: nat)
    | ReleaseRemove(i: nat)
    | Crash(i: nat)

  predicate Live(p: Phase) {
    p.Waiting? || p.Held? || p.Releasing?
  }

  predicate Holds(p: Phase) {
    p.Held? || p.Releasing?
  }

  /** A fresh record of somebody else makes the call give up. */
  predicate Fresh(seen: Option<Record>, i: nat, now: int) {
    seen.Some? && seen.value.id != i && now - seen.value.at < EXPIRY
  }

  predicate Owns(s: State, i: nat) {
    s.record.Some? && s.record.value.id == i
  }

  ghost predicate Enabled(t: Timing, s: State, e: Event) {
    match e
    case Tick(ms) => forall i :: i in s.tabs && Live(s.tabs[i]) ==> s.now + ms - s.tabs[i].stamp <= t.live
    case Return(i, w) => i !in s.tabs && s.Flag(w)
    case Read(i, w) => i !in s.tabs && !Owns(s, i) && !s.Flag(w)
    case Decide(i) => s.Tab(i).Looking?
    case Write(i, stamp) =>
      && s.Tab(i).Cleared? && s.Tab(i).readAt <= stamp <= s.now
      && s.now - s.Tab(i).readAt <= t.gap && s.now - stamp <= t.live
    case Verify(i) => s.Tab(i).Waiting? && s.now >= s.Tab(i).wroteAt + SETTLE
    case Beat(i, stamp) => s.Tab(i).Held? && s.Tab(i).stamp <= stamp <= s.now
    case ReleaseRead(i) => s.Tab(i).Held?
    case ReleaseRemove(i) => s.Tab(i).Releasing?
    case Crash(i) => i in s.tabs
  }

  function Apply(s: State, e: Event): State {
    match e
    case Tick(ms) => s.(now := s.now + ms)
    case Return(i, w) => s
    case Read(i, w) => s.With(i, Looking(s.now, s.record)).(windows := s.windows[i := w])
    case Decide(i) =>
      if !s.Tab(i).Looking? then s
      else if Fresh(s.Tab(i).seen, i, s.now) then s.With(i, Gone)
      else s.With(i, Cleared(s.Tab(i).readAt))
    case Write(i, stamp) =>
      s.With(i, Waiting(s.now, stamp)).(record := Some(Record(i, stamp)), lastWriter := Some(i))
    case Verify(i) =>
      if !s.Tab(i).Waiting? then s
      else if Owns(s, i) then
        s.With(i, Held(s.Tab(i).wroteAt, s.Tab(i).stamp)).(flagged := s.flagged + {i})
      else s.With(i, Gone)
    case Beat(i, stamp) =>
      if !s.Tab(i).Held? then s
      else s.With(i, Held(s.Tab(i).wroteAt, stamp)).(record := Some(Record(i, stamp)))
    case ReleaseRead(i) =>
      if !s.Tab(i).Held? then s
      else if Owns(s, i) then s.With(i, Releasing(s.Tab(i).wroteAt, s.Tab(i).stamp))
      else s.With(i, Gone).(ended := s.ended + {i})
    case ReleaseRemove(i) => s.With(i, Gone).(record := None, ended := s.ended + {i})
    case Crash(i) => s.With(i, Gone).(crashed := s.crashed + {i}, ended := s.ended + {i})
  }

  /** No tab is open; a record may be left over from an earlier session. */
  ghost predicate Initial(s: State) {
    s.tabs == map[] && s.windows == map[] && s.lastWriter == None && s.flagged == s.crashed == s.ended == {}
  }

  /** Some run of exactly n events leads to s. */
  ghost predicate Reachable(t: Timing, s: State, n: nat)
    decreases n
  {
    if n == 0 then Initial(s)
    else exists before: State, e: Event :: Reachable(t, before, n - 1) && Enabled(t, before, e) && s == Apply(before, e)
  }

  /** Nobody else holds the lease while one tab does, until that tab has removed its record. */
  ghost predicate Exclusive(s: State) {
    forall i, j :: i in s.tabs && j in s.tabs && Holds(s.tabs[i]) && Holds(s.tabs[j]) ==> i == j
  }

  // ----------------------------------------------------------- safety

  predicate Tight(t: Timing) {
    t.gap < 80 && t.gap + t.live < 10000
  }

  /** Tab j saw a record that keeps it out for as long as it is still allowed to write. */
  predicate Blocked(t: Timing, j: nat, p: Phase)
    requires p.Looking?
  {
    p.seen.Some? && p.seen.value.id != j && p.readAt - p.seen.value.at <= t.live
  }

  ghost predicate TimesOk(t: Timing, s: State) {
    forall i :: i in s.tabs ==>
      var p := s.tabs[i];
      && (p.Looking? || p.Cleared? ==> p.readAt <= s.now)
      && (Live(p) ==> p.stamp <= s.now && s.now - p.stamp <= t.live && p.wroteAt <= s.now)
      && (Holds(p) ==> p.wroteAt + SETTLE <= s.now)
  }

  /** The record is the last write of its owner, and every holder owns the record. */
  ghost predicate RecordOk(s: State) {
    forall i :: i in s.tabs ==>
      var p := s.tabs[i];
      && (Holds(p) ==> Owns(s, i))
      && (Live(p) && Owns(s, i) ==> s.record.value.at == p.stamp)
  }

  /** A tab that read after the owner's write is blocked or too late to write. */
  ghost predicate ReadersOk(t: Timing, s: State) {
    forall i, j :: i in s.tabs && j in s.tabs && Live(s.tabs[i]) && Owns(s, i) ==>
      var w, p := s.tabs[i].wroteAt, s.tabs[j];
      && (p.Looking? ==> p.readAt <= w || Blocked(t, j, p))
      && (p.Cleared? ==> p.readAt <= w || s.now - p.readAt > t.gap)
  }

  ghost predicate Inv(t: Timing, s: State) {
    TimesOk(t, s) && RecordOk(s) && ReadersOk(t, s)
  }

  lemma InvIsExclusive(t: Timing, s: State)
    requires Inv(t, s)
    ensures Exclusive(s)
  {
  }

  lemma InvStep(t: Timing, s: State, e: Event)
    requires Tight(t) && Inv(t, s) && Enabled(t, s, e)
    ensures Inv(t, Apply(s, e))
  {
    match e
    case Write(i, stamp) => InvWrite(t, s, i, stamp);
    case Decide(i) => InvDecide(t, s, i);
    case Verify(i) => InvVerify(t, s, i);
    case Beat(i, stamp) => InvBeat(t, s, i, stamp);
    case Read(i, w) => InvRead(t, s, i, w);
    case _ =>
  }

  lemma InvRead(t: Timing, s: State, i: nat, w: nat)
    requires Tight(t) && Inv(t, s) && Enabled(t, s, Read(i, w))
    ensures Inv(t, Apply(s, Read(i, w)))
  {
  }

  lemma InvBeat(t: Timing, s: State, i: nat, stamp: int)
    requires Tight(t) && Inv(t, s) && Enabled(t, s, Beat(i, stamp))
    ensures Inv(t, Apply(s, Beat(i, stamp)))
  {
  }

  lemma InvVerify(t: Timing, s: State, i: nat)
    requires Tight(t) && Inv(t, s) && Enabled(t, s, Verify(i))
    ensures Inv(t, Apply(s, Verify(i)))
  {
  }

  lemma InvDecide(t: Timing, s: State, i: nat)
    requires Tight(t) && Inv(t, s) && Enabled(t, s, Decide(i))
    ensures Inv(t, Apply(s, Decide(i)))
  {
  }

  /** A racer that is still in time to write started before the holder's settling time: there is no holder. */
  lemma InvWrite(t: Timing, s: State, i: nat, stamp: int)
    requires Tight(t) && Inv(t, s) && Enabled(t, s, Write(i, stamp))
    ensures Inv(t, Apply(s, Write(i, stamp)))
  {
  }

  lemma {:induction false} ReachableInv(t: Timing, s: State, n: nat)
    requires Tight(t) && Reachable(t, s, n)
    ensures Inv(t, s) && RaceInv(s)
    decreases n
  {
    if n != 0 {
      var before: State, e: Event :| Reachable(t, before, n - 1) && Enabled(t, before, e) && s == Apply(before, e);
      ReachableInv(t, before, n - 1);
      InvStep(t, before, e);
      RaceStep(t, before, e);
    }
  }

  // ------------------------------------------------------------ races

  /** The last racer to write is still settling with its record in place, or has won, or has died;
      no other settling racer owns the record. */
  ghost predicate RaceInv(s: State) {
    && (forall i :: i in s.tabs && s.tabs[i].Waiting? && Owns(s, i) ==> s.lastWriter == Some(i))
    && (forall i :: s.lastWriter == Some(i) ==>
          i in s.crashed || i in s.flagged || (s.Tab(i).Waiting? && Owns(s, i)))
    && (forall i :: i in s.crashed || i in s.flagged ==> i in s.tabs && (Holds(s.tabs[i]) || s.tabs[i].Gone?))
  }

  lemma RaceStep(t: Timing, s: State, e: Event)
    requires Tight(t) && Inv(t, s) && RaceInv(s) && Enabled(t, s, e)
    ensures RaceInv(Apply(s, e))
  {
  }

  /** In every reachable state the re-read succeeds for the last racer that wrote and for no other. */
  lemma LastWriterWins(t: Timing, s: State, n: nat, i: nat)
    requires Tight(t) && Reachable(t, s, n) && Enabled(t, s, Verify(i))
    ensures Apply(s, Verify(i)).tabs[i] ==
      if s.lastWriter == Some(i) then Held(s.tabs[i].wroteAt, s.tabs[i].stamp) else Gone
  {
    ReachableInv(t, s, n);
  }

  /** Once nobody is settling, the last racer that wrote has won, unless it died while settling. */
  lemma RaceHasWinner(t: Timing, s: State, n: nat)
    requires Tight(t) && Reachable(t, s, n)
    requires forall i :: i in s.tabs ==> !s.tabs[i].Waiting?
    ensures match s.lastWriter
      case None => true
      case Some(i) => i in s.flagged || i in s.crashed
  {
    ReachableInv(t, s, n);
  }

  /** Release finds its own record, removes it, and leaves nobody with the lease. */
  lemma ReleaseRemovesOwn(t: Timing, s: State, n: nat, i: nat)
    requires Tight(t) && Reachable(t, s, n)
    ensures Enabled(t, s, ReleaseRead(i)) ==> Owns(s, i) && Apply(s, ReleaseRead(i)).Tab(i).Releasing?
    ensures Enabled(t, s, ReleaseRemove(i)) ==>
      var after := Apply(s, ReleaseRemove(i));
      Owns(s, i) && after.record == None && forall k :: k in after.tabs ==> !Holds(after.tabs[k])
  {
    ReachableInv(t, s, n);
    InvIsExclusive(t, s);
  }

  /** Whatever the timing, release goes on to remove the record only if it still carries the releaser's id. */
  lemma ReleaseSparesOthers(t: Timing, s: State, i: nat)
    requires Enabled(t, s, ReleaseRead(i))
    ensures Apply(s, ReleaseRead(i)).Tab(i).Releasing? <==> s.record.Some? && s.record.value.id == i
    ensures !Apply(s, ReleaseRead(i)).Tab(i).Releasing? ==> Apply(s, ReleaseRead(i)).Tab(i).Gone?
  {
  }

  /** Only claims, heartbeats and removals touch the record, and this is what they leave in it. */
  lemma RecordChanges(t: Timing, s: State, e: Event)
    requires Enabled(t, s, e)
    ensures Apply(s, e).record ==
      match e
      case Write(i, stamp) => Some(Record(i, stamp))
      case Beat(i, stamp) => Some(Record(i, stamp))
      case ReleaseRemove(_) => None
      case _ => s.record
  {
  }

  // ---------------------------------------- the timing bounds are exact

  ghost predicate AlwaysExclusive(t: Timing) {
    forall s: State, n: nat :: Reachable(t, s, n) ==> Exclusive(s)
  }

  /** A holder rewrites its record every 3000 ms after settling for 80 ms, so a living tab needs live >= 3080. */
  lemma ExclusiveExactly(t: Timing)
    requires t.live >= 3080
    ensures AlwaysExclusive(t) <==> Tight(t)
  {
    if Tight(t) {
      forall s: State, n: nat | Reachable(t, s, n) ensures Exclusive(s) {
        ReachableInv(t, s, n);
        InvIsExclusive(t, s);
      }
    } else if t.gap >= 80 {
      SlowWriter(t);
    } else {
      LateDecision(t);
    }
  }

  ghost predicate Reaches(t: Timing, s: State) {
    exists n: nat :: Reachable(t, s, n)
  }

  lemma Go(t: Timing, before: State, e: Event) returns (s: State)
    requires Reaches(t, before) && Enabled(t, before, e)
    ensures Reaches(t, s) && s == Apply(before, e)
  {
    var n: nat :| Reachable(t, before, n);
    s := Apply(before, e);
    assert Reachable(t, s, n + 1);
  }

  lemma Begin(t: Timing) returns (s: State)
    ensures Reaches(t, s) && s == START
  {
    s := START;
    assert Reachable(t, s, 0);
  }

  const START := State(0, None, map[], None, {}, {}, {}, map[])

  /** Call 1 in window 1 and call 2 in window 2. */
  const BOTH: map<nat, nat> := map[1 := 1, 2 := 2]

  lemma TwoCleared(t: Timing) returns (s: State)
    ensures Reaches(t, s)
    ensures s == State(0, None, map[1 := Cleared(0), 2 := Cleared(0)], None, {}, {}, {}, BOTH)
  {
    s := Begin(t);
    s := Go(t, s, Read(1, 1));
    s := Go(t, s, Read(2, 2));
    s := Go(t, s, Decide(1));
    s := Go(t, s, Decide(2));
  }

  lemma OneWaiting(t: Timing) returns (s: State)
    ensures Reaches(t, s)
    ensures s == State(0, Some(Record(1, 0)), map[1 := Waiting(0, 0), 2 := Cleared(0)], Some(1), {}, {}, {}, BOTH)
  {
    s := TwoCleared(t);
    s := Go(t, s, Write(1, 0));
  }

  /** Both tabs have read an empty store; tab 1 has written and settled. */
  lemma TwoReaders(t: Timing) returns (s: State)
    requires t.live >= 3080
    ensures Reaches(t, s)
    ensures s == State(80, Some(Record(1, 0)), map[1 := Held(0, 0), 2 := Cleared(0)], Some(1), {1}, {}, {}, BOTH)
  {
    s := OneWaiting(t);
    s := Go(t, s, Tick(80));
    s := Go(t, s, Verify(1));
  }

  /** Tab 2 reads before tab 1 writes and writes after tab 1 has settled. */
  lemma SlowWriter(t: Timing)
    requires t.live >= 3080 && t.gap >= 80
    ensures !AlwaysExclusive(t)
  {
    var s := TwoReaders(t);
    s := Go(t, s, Write(2, 80));
    s := Go(t, s, Tick(80));
    s := Go(t, s, Verify(2));
    assert s.Tab(1).Held? && s.Tab(2).Held?;
    assert !Exclusive(s);
  }

  /** There is no record, or the last one is ten seconds old. */
  predicate Expired(record: Option<Record>, now: int) {
    record.None? || now - record.value.at >= 10000
  }

  /** The age alone decides about another call's record, whoever left it and whenever. */
  lemma RefusesExactly(t: Timing, s: State, i: nat, record: Option<Record>, readAt: int)
    requires Enabled(t, s, Decide(i)) && s.Tab(i) == Looking(readAt, record)
    requires record.Some? ==> record.value.id != i
    ensures Apply(s, Decide(i)).Tab(i) == if Expired(record, s.now) then Cleared(readAt) else Gone
  {
  }

  ghost predicate NobodyLives(s: State) {
    forall k :: k in s.tabs ==> !Live(s.tabs[k])
  }

  /** A call that meets no record, or an expired one, and no other live call acquires the lease. */
  lemma Acquire(t: Timing, before: State, i: nat, w: nat) returns (s: State)
    requires t.live >= 80 && Reaches(t, before) && Enabled(t, before, Read(i, w))
    requires Expired(before.record, before.now) && NobodyLives(before)
    ensures Reaches(t, s)
    ensures s == before.With(i, Held(before.now, before.now)).(
      now := before.now + 80, record := Some(Record(i, before.now)), lastWriter := Some(i),
      flagged := before.flagged + {i}, windows := before.windows[i := w])
  {
    s := Claim(t, before, i, w);
    s := Go(t, s, Tick(80));
    s := Go(t, s, Verify(i));
    assert before.tabs[i := Waiting(before.now, before.now)][i := Held(before.now, before.now)] ==
      before.tabs[i := Held(before.now, before.now)];
  }

  lemma Claim(t: Timing, before: State, i: nat, w: nat) returns (s: State)
    requires Reaches(t, before) && Enabled(t, before, Read(i, w)) && Expired(before.record, before.now)
    ensures Reaches(t, s)
    ensures s == before.With(i, Waiting(before.now, before.now)).(
      record := Some(Record(i, before.now)), lastWriter := Some(i), windows := before.windows[i := w])
  {
    s := Go(t, before, Read(i, w));
    s := Go(t, s, Decide(i));
    s := Go(t, s, Write(i, before.now));
    var now, tabs: map<nat, Phase> := before.now, before.tabs;
    assert tabs[i := Looking(now, before.record)][i := Cleared(now)][i := Waiting(now, now)] ==
      tabs[i := Waiting(now, now)];
  }

  /**
   No crash locks the lease for good: whatever record the dead have left behind, time alone makes it expire, and
   the next call in an unflagged window gets the lease.
   */
  lemma LeaseComesFree(t: Timing, before: State, i: nat, w: nat) returns (s: State)
    requires t.live >= 80 && Reaches(t, before) && Enabled(t, before, Read(i, w)) && NobodyLives(before)
    ensures Reaches(t, s) && s.Tab(i).Held? && Owns(s, i)
    ensures s.now == 80 + if Expired(before.record, before.now) then before.now else before.record.value.at + 10000
  {
    s := before;
    if !Expired(before.record, before.now) {
      s := Go(t, s, Tick(before.record.value.at + 10000 - before.now));
    }
    assert s.Flag(w) <==> before.Flag(w);
    s := Acquire(t, s, i, w);
  }

  lemma FirstHolder(t: Timing) returns (s: State)
    requires t.live >= 3080
    ensures Reaches(t, s)
    ensures s == State(80, Some(Record(1, 0)), map[1 := Held(0, 0)], Some(1), {1}, {}, {}, map[1 := 1])
  {
    s := Begin(t);
    s := Acquire(t, s, 1, 1);
  }

  /** Tab 2 reads a record that is `live` ms old just before the holder renews it, and judges its age `gap` ms later. */
  lemma StaleReader(t: Timing) returns (s: State)
    requires t.live >= 3080 && t.gap < 80 && t.gap + t.live >= 10000
    ensures Reaches(t, s)
    ensures var l := t.live;
      s == State(l + t.gap, Some(Record(1, l)), map[1 := Held(0, l), 2 := Cleared(l)], Some(1), {1}, {}, {}, BOTH)
  {
    s := AgedReader(t);
    s := Go(t, s, Tick(t.gap));
    s := Go(t, s, Decide(2));
  }

  lemma AgedReader(t: Timing) returns (s: State)
    requires t.live >= 3080
    ensures Reaches(t, s)
    ensures var l := t.live;
      s == State(l, Some(Record(1, l)), map[1 := Held(0, l), 2 := Looking(l, Some(Record(1, 0)))], Some(1), {1}, {},
        {}, BOTH)
  {
    s := FirstHolder(t);
    s := Go(t, s, Tick(t.live - 80));
    assert s == State(t.live, Some(Record(1, 0)), map[1 := Held(0, 0)], Some(1), {1}, {}, {}, map[1 := 1]);
    s := Go(t, s, Read(2, 2));
    assert s == State(t.live, Some(Record(1, 0)), map[1 := Held(0, 0), 2 := Looking(t.live, Some(Record(1, 0)))],
      Some(1), {1}, {}, {}, BOTH);
    s := Go(t, s, Beat(1, t.live));
  }

  lemma LateDecision(t: Timing)
    requires t.live >= 3080 && t.gap < 80 && t.gap + t.live >= 10000
    ensures !AlwaysExclusive(t)
  {
    var s := StaleReader(t);
    s := Go(t, s, Write(2, t.live + t.gap));
    s := Go(t, s, Tick(80));
    s := Go(t, s, Verify(2));
    assert s.Tab(1).Held? && s.Tab(2).Held?;
    assert !Exclusive(s);
  }

  // -------------------------------------------------- the held flag

  /** A call whose flag is set holds the lease until it has died or finished its release. */
  ghost predicate FlagInv(s: State) {
    && (forall c :: c in s.tabs ==> c in s.windows && (Holds(s.tabs[c]) ==> c in s.flagged))
    && (forall c :: c in s.ended ==> c in s.tabs && s.tabs[c].Gone?)
    && (forall c :: c in s.flagged && c !in s.ended ==> c in s.tabs && Holds(s.tabs[c]))
  }

  lemma FlagStep(t: Timing, s: State, e: Event)
    requires FlagInv(s) && Enabled(t, s, e)
    ensures FlagInv(Apply(s, e))
  {
  }

  lemma {:induction false} ReachableFlags(t: Timing, s: State, n: nat)
    requires Reachable(t, s, n)
    ensures FlagInv(s)
    decreases n
  {
    if n != 0 {
      var before: State, e: Event :| Reachable(t, before, n - 1) && Enabled(t, before, e) && s == Apply(before, e);
      ReachableFlags(t, before, n - 1);
      FlagStep(t, before, e);
    }
  }

  /** Window w has the lease: a call made in it is alive and carries the record. */
  ghost predicate WindowHolds(s: State, w: nat) {
    exists c :: s.CalledIn(c, w) && Holds(s.Tab(c)) && Owns(s, c)
  }

  /** When the window flag tells the truth: not every acquisition in the window has ended. */
  ghost predicate StillRunning(s: State, w: nat) {
    exists c :: s.CalledIn(c, w) && c in s.flagged && c !in s.ended
  }

  /** A call that finds the window flag set returns true at once, and is right exactly when StillRunning. */
  lemma EarlyReturnExactly(t: Timing, s: State, n: nat, i: nat, w: nat)
    requires Tight(t) && Reachable(t, s, n) && Enabled(t, s, Return(i, w))
    ensures WindowHolds(s, w) <==> StillRunning(s, w)
    ensures forall c :: c in s.flagged ==> (Holds(s.Tab(c)) && Owns(s, c) <==> c !in s.ended)
  {
    ReachableInv(t, s, n);
    ReachableFlags(t, s, n);
  }

  /** It can be wrong: a released window gets true while another window holds the lease. */
  lemma FlagOutlivesLease(t: Timing) returns (s: State)
    requires t.live >= 3080
    ensures Reaches(t, s) && Enabled(t, s, Return(3, 1)) && !StillRunning(s, 1) && WindowHolds(s, 2)
  {
    s := FirstHolder(t);
    s := Go(t, s, ReleaseRead(1));
    s := Go(t, s, ReleaseRemove(1));
    assert s == State(80, None, map[1 := Gone], Some(1), {1}, {}, {1}, map[1 := 1]);
    s := Acquire(t, s, 2, 2);
    assert s == State(160, Some(Record(2, 80)), map[1 := Gone, 2 := Held(80, 80)], Some(2), {1, 2}, {}, {1}, BOTH);
    assert s.CalledIn(1, 1) && s.CalledIn(2, 2);
  }

  // ------------------------------------------------ one call, step by step

  /** localStorage under the lease key. */
  class Storage {
    var item: Option<Record>
  }

  /** The state that calls in one window share. */
  class Window {
    const id: nat
    var held: bool

    constructor (id: nat)
      ensures this.id == id && !held
    {
      this.id, held := id, false;
    }
  }

  /** One call of acquireGaiusRuntimeLease. */
  class LeaseClient {
    const id: nat
    const storage: Storage
    const window: Window
    var phase: Phase

    constructor (id: nat, storage: Storage, window: Window)
      ensures this.id == id && this.storage == storage && this.window == window && phase == Idle
    {
      this.id, this.storage, this.window, phase := id, storage, window, Idle;
    }

    /** What a call sees of a state of the machine. */
    ghost predicate Sees(s: State, item: Option<Record>, p: Phase, held: bool) {
      && s.record == item && s.Tab(id) == p && s.flagged <= s.tabs.Keys
      && (s.Flag(window.id) <==> held)
      && if p.Idle? then id !in s.tabs else s.CalledIn(id, window.id)
    }

    /** The step from (item, phase, held) to (item', phase', held') is event e of the state machine at time now. */
    ghost predicate Follows(e: Event, now: int, item: Option<Record>, p: Phase, held: bool,
                            item': Option<Record>, p': Phase, held': bool) {
      forall s: State :: s.now == now && Sees(s, item, p, held) ==> Sees(Apply(s, e), item', p', held')
    }

    /** A call in a window whose flag is set returns true; any other reads the record. */
    method Start(now: int) returns (already: bool)
      requires phase.Idle?
      modifies this
      ensures already <==> window.held
      ensures Follows(if already then Return(id, window.id) else Read(id, window.id), now,
        old(storage.item), old(phase), old(window.held), storage.item, phase, window.held)
    {
      if window.held {
        return true;
      }
      phase := Looking(now, storage.item);
      already := false;
      forall s: State | s.now == now && Sees(s, storage.item, old(phase), window.held)
        ensures Sees(Apply(s, Read(id, window.id)), storage.item, phase, window.held)
      {
        SameFlags(s, Apply(s, Read(id, window.id)), id, window.id);
      }
    }

    /** A new call, and a call that is not flagged, leave every flag alone. */
    static lemma SameFlags(s: State, after: State, i: nat, w: nat)
      requires i !in s.tabs && s.flagged <= s.tabs.Keys
      requires after.flagged == s.flagged && forall c :: c != i ==> (s.CalledIn(c, w) <==> after.CalledIn(c, w))
      ensures s.Flag(w) <==> after.Flag(w)
    {
    }

    method CheckCurrent(now: int) returns (refused: bool)
      requires phase.Looking?
      modifies this
      ensures Follows(Decide(id), now,
        old(storage.item), old(phase), old(window.held), storage.item, phase, window.held)
      ensures refused <==> phase.Gone?
    {
      var current := phase.seen;
      refused := current.Some? && current.value.id != id && now - current.value.at < EXPIRY;
      phase := if refused then Gone else Cleared(phase.readAt);
    }

    method WriteLease(now: int, stamp: int)
      requires phase.Cleared?
      modifies this, storage
      ensures Follows(Write(id, stamp), now,
        old(storage.item), old(phase), old(window.held), storage.item, phase, window.held)
    {
      storage.item := Some(Record(id, stamp));
      phase := Waiting(now, stamp);
    }

    method CheckClaimed(now: int) returns (acquired: bool)
      requires phase.Waiting?
      modifies this, window
      ensures Follows(Verify(id), now,
        old(storage.item), old(phase), old(window.held), storage.item, phase, window.held)
      ensures acquired <==> phase.Held?
    {
      var claimed := storage.item;
      if claimed.None? || claimed.value.id != id {
        phase := Gone;
        return false;
      }
      phase := Held(phase.wroteAt, phase.stamp);
      window.held := true;
      return true;
    }

    method Heartbeat(now: int, stamp: int)
      requires phase.Held?
      modifies this, storage
      ensures Follows(Beat(id, stamp), now,
        old(storage.item), old(phase), old(window.held), storage.item, phase, window.held)
    {
      storage.item := Some(Record(id, stamp));
      phase := Held(phase.wroteAt, stamp);
    }

    method StopAndReadOwned(now: int) returns (owned: bool)
      requires phase.Held?
      modifies this
      ensures Follows(ReleaseRead(id), now,
        old(storage.item), old(phase), old(window.held), storage.item, phase, window.held)
      ensures owned <==> phase.Releasing?
    {
      owned := storage.item.Some? && storage.item.value.id == id;
      phase := if owned then Releasing(phase.wroteAt, phase.stamp) else Gone;
    }

    method RemoveOwned(now: int)
      requires phase.Releasing?
      modifies this, storage
      ensures Follows(ReleaseRemove(id), now,
        old(storage.item), old(phase), old(window.held), storage.item, phase, window.held)
    {
      storage.item := None;
      phase := Gone;
    }
  }
}
