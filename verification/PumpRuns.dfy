/**
 What the input pump promises over whole runs: every request is answered by a later start or by giving up, and
 a burst of failing starts is short. Everything is told from the events and the pump's own counters.
 */
module PumpRuns {
  import opened Common
  import opened ServerPump

  ghost predicate Happens(before: State, e: Event, after: State) {
    Enabled(before, e) && after == Step(before, e)
  }

  /** Keeps an event of a run folded until its position is mentioned. */
  predicate Position(i: int) { true }

  /** The states that a sequence of events goes through. */
  ghost predicate Trace(es: seq<Event>, states: seq<State>) {
    && |states| == |es| + 1 && states[0] == IDLE
    && forall i {:trigger Position(i)} :: Position(i) && 0 <= i < |es| ==> Happens(states[i], es[i], states[i + 1])
  }

  // --------------------------------------------- invariants of the pump

  /**
   At most one of the three occupations; a queued dispatch or timer has something to do; pending work always has
   an occupation that will look at it.
   */
  predicate Exclusive(s: State) {
    && !(s.running && s.dispatchScheduled) && !(s.running && s.retryTimer) && !(s.dispatchScheduled && s.retryTimer)
    && (s.dispatchScheduled || s.retryTimer ==> s.pending)
    && (s.pending ==> Busy(s))
  }

  predicate RetriesOk(s: State) {
    && s.retryCount <= 4
    && (s.retryTimer ==> s.retryCount >= 1 && s.delay == [1, 2, 4, 8][s.retryCount - 1])
    && (s.dispatchScheduled ==> s.retryCount == 0)
    && s.stats.failures == s.stats.retrySchedules + s.stats.retryExhaustions
  }

  predicate Inv(s: State) {
    Exclusive(s) && RetriesOk(s)
  }

  lemma Delays()
    ensures Delay(1) == 1 && Delay(2) == 2 && Delay(3) == 4 && Delay(4) == 8
  {
    assert Shift1(0) == 1 && Shift1(1) == 2 && Shift1(2) == 4 && Shift1(3) == 8;
  }

  lemma FailKeepsInv(s: State)
    requires Inv(s) && s.running
    ensures Inv(Fail(s))
  {
    Delays();
  }

  lemma RunKeepsInv(s: State, o: Outcome)
    requires Inv(Started(s))
    ensures Inv(Run(s, o))
  {
    var t := Coalesce(Started(s), o.during);
    match o.ending
    case Throws => FailKeepsInv(t);
    case CallsBack(ok) => if !ok { FailKeepsInv(t); }
    case Later =>
  }

  lemma StepKeepsInv(s: State, e: Event)
    requires Inv(s) && Enabled(s, e)
    ensures Inv(Step(s, e))
  {
    match e
    case Request(o) => if !Busy(s) { RunKeepsInv(Fresh(s), o); }
    case Callback(ok) => if !ok { FailKeepsInv(s); }
    case Microtask(o) => RunKeepsInv(s.(dispatchScheduled := false), o);
    case Timer(o) => RunKeepsInv(s.(retryTimer := false), o);
  }

  /** What one start does to the counters, and to the requests that arrive from inside it. */
  lemma RunCounts(s: State, o: Outcome)
    ensures var r := Run(s, o);
      && r.stats.starts == s.stats.starts + 1 && r.stats.retryExhaustions >= s.stats.retryExhaustions
      && r.stats.requests == s.stats.requests + o.during && r.stats.coalesced == s.stats.coalesced + o.during
      && (o.during > 0 ==> r.stats.retryExhaustions > s.stats.retryExhaustions || (r.pending && Busy(r)))
  {
    EndCounts(Coalesce(Started(s), o.during), o.ending);
  }

  lemma EndCounts(s: State, ending: Ending)
    ensures var r := End(s, ending);
      && r.stats.starts == s.stats.starts && r.stats.retryExhaustions >= s.stats.retryExhaustions
      && r.stats.requests == s.stats.requests && r.stats.coalesced == s.stats.coalesced
      && (s.pending && s.running ==>
            r.stats.retryExhaustions > s.stats.retryExhaustions || (r.pending && Busy(r)))
  {
  }

  /** The event starts the pump. */
  predicate StartsOn(s: State, e: Event) {
    match e
    case Request(_) => !Busy(s)
    case Callback(_) => false
    case _ => s.pending
  }

  /** The state from which it starts. */
  function From(s: State, e: Event): State {
    match e
    case Request(_) => Fresh(s)
    case Callback(_) => s
    case Microtask(_) => s.(dispatchScheduled := false)
    case Timer(_) => s.(retryTimer := false)
  }

  lemma StepIsRun(s: State, e: Event)
    requires StartsOn(s, e)
    ensures !e.Callback? && Step(s, e) == Run(From(s, e), e.outcome)
  {
  }

  lemma HappensKeepsInv(before: State, e: Event, after: State)
    requires Inv(before) && Happens(before, e, after)
    ensures Inv(after)
  {
    StepKeepsInv(before, e);
  }

  /** In every state of every run. */
  lemma {:induction false} RunInv(es: seq<Event>, states: seq<State>, i: nat)
    requires Trace(es, states) && i <= |es|
    ensures Inv(states[i])
  {
    if i > 0 {
      RunInv(es, states, i - 1);
      NextInv(es, states, i - 1);
    }
  }

  lemma NextInv(es: seq<Event>, states: seq<State>, k: nat)
    requires Trace(es, states) && k < |es| && Inv(states[k])
    ensures Inv(states[k + 1])
  {
    assert Position(k);
    HappensKeepsInv(states[k], es[k], states[k + 1]);
  }

  // ------------------------------------------------------- the requests

  /** The requests that arrive from inside a start. */
  function During(e: Event): nat {
    if e.Callback? then 0 else e.outcome.during
  }

  predicate Begins(before: State, after: State) {
    after.stats.starts > before.stats.starts
  }

  /** How many requests an event brings. */
  function Asked(before: State, e: Event, after: State): nat {
    (if e.Request? then 1 else 0) + (if Begins(before, after) then During(e) else 0)
  }

  /** Those of them that found the pump busy: all but a request to an idle pump. */
  function Joined(before: State, e: Event, after: State): nat {
    (if e.Request? && Busy(before) then 1 else 0) + (if Begins(before, after) then During(e) else 0)
  }

  /** Starts come of requests to an idle pump, of dispatches and of timers, one of each. */
  lemma StepCounts(before: State, e: Event, after: State)
    requires Inv(before) && Happens(before, e, after)
    ensures after.stats.requests == before.stats.requests + Asked(before, e, after)
    ensures after.stats.coalesced == before.stats.coalesced + Joined(before, e, after)
    ensures after.stats.starts == before.stats.starts +
      if e.Callback? || (e.Request? && Busy(before)) then 0 else 1
  {
    if StartsOn(before, e) {
      StepIsRun(before, e);
      RunCounts(From(before, e), e.outcome);
    } else if e.Callback? {
      EndCounts(before, CallsBack(e.ok));
    }
  }

  ghost function AllAsked(es: seq<Event>, states: seq<State>, i: nat): nat
    requires |states| == |es| + 1 && i <= |es|
  {
    if i == 0 then 0 else AllAsked(es, states, i - 1) + Asked(states[i - 1], es[i - 1], states[i])
  }

  ghost function AllJoined(es: seq<Event>, states: seq<State>, i: nat): nat
    requires |states| == |es| + 1 && i <= |es|
  {
    if i == 0 then 0 else AllJoined(es, states, i - 1) + Joined(states[i - 1], es[i - 1], states[i])
  }

  /** The counters of requests and of coalesced requests miss none. */
  lemma {:induction false} RequestsCounted(es: seq<Event>, states: seq<State>, i: nat)
    requires Trace(es, states) && i <= |es|
    ensures states[i].stats.requests == AllAsked(es, states, i)
    ensures states[i].stats.coalesced == AllJoined(es, states, i)
  {
    if i > 0 {
      RequestsCounted(es, states, i - 1);
      NextCounted(es, states, i - 1);
    }
  }

  lemma NextCounted(es: seq<Event>, states: seq<State>, k: nat)
    requires Trace(es, states) && k < |es|
    ensures states[k + 1].stats.requests == states[k].stats.requests + Asked(states[k], es[k], states[k + 1])
    ensures states[k + 1].stats.coalesced == states[k].stats.coalesced + Joined(states[k], es[k], states[k + 1])
  {
    RunInv(es, states, k);
    assert Position(k);
    StepCounts(states[k], es[k], states[k + 1]);
  }

  /**
   A request is answered once a start or an exhaustion has come after it; until then the pump is busy and has the
   request pending.
   */
  predicate Answered(starts: nat, exhaustions: nat, s: State) {
    && s.stats.starts >= starts && s.stats.retryExhaustions >= exhaustions
    && (s.stats.starts > starts || s.stats.retryExhaustions > exhaustions || (s.pending && Busy(s)))
  }

  lemma StaysAnswered(starts: nat, exhaustions: nat, before: State, e: Event, after: State)
    requires Inv(before) && Happens(before, e, after) && Answered(starts, exhaustions, before)
    ensures Answered(starts, exhaustions, after)
  {
    if StartsOn(before, e) {
      StepIsRun(before, e);
      RunCounts(From(before, e), e.outcome);
    } else if e.Callback? {
      EndCounts(before, CallsBack(e.ok));
    }
  }

  lemma RequestAnswered(before: State, e: Event, after: State)
    requires Inv(before) && Happens(before, e, after)
    ensures e.Request? ==> Answered(before.stats.starts, before.stats.retryExhaustions, after)
    ensures e.Request? && Busy(before) ==> after.pending && Busy(after)
    ensures Begins(before, after) && During(e) > 0 ==>
      Answered(after.stats.starts, before.stats.retryExhaustions, after)
  {
    if StartsOn(before, e) {
      StepIsRun(before, e);
      RunCounts(From(before, e), e.outcome);
    } else if e.Callback? {
      EndCounts(before, CallsBack(e.ok));
    }
  }

  lemma NextAnswered(es: seq<Event>, states: seq<State>, starts: nat, exhaustions: nat, k: nat)
    requires Trace(es, states) && k < |es| && Answered(starts, exhaustions, states[k])
    ensures Answered(starts, exhaustions, states[k + 1])
  {
    RunInv(es, states, k);
    assert Position(k);
    StaysAnswered(starts, exhaustions, states[k], es[k], states[k + 1]);
  }

  lemma {:induction false} AnsweredFrom(es: seq<Event>, states: seq<State>, starts: nat, exhaustions: nat, i: nat,
                                        j: nat)
    requires Trace(es, states) && i <= j <= |es| && Answered(starts, exhaustions, states[i])
    ensures Answered(starts, exhaustions, states[j])
    decreases j
  {
    if i < j {
      AnsweredFrom(es, states, starts, exhaustions, i, j - 1);
      NextAnswered(es, states, starts, exhaustions, j - 1);
    }
  }

  /** No wake-up is lost: at any time after a request it is answered, or the pump is busy with it pending. */
  lemma EveryRequestAnswered(es: seq<Event>, states: seq<State>, i: nat, j: nat)
    requires Trace(es, states) && i < j <= |es| && es[i].Request?
    ensures Answered(states[i].stats.starts, states[i].stats.retryExhaustions, states[j])
    ensures Busy(states[i]) ==> states[i + 1].pending
  {
    RunInv(es, states, i);
    assert Position(i);
    RequestAnswered(states[i], es[i], states[i + 1]);
    AnsweredFrom(es, states, states[i].stats.starts, states[i].stats.retryExhaustions, i + 1, j);
  }

  /** Nor for requests from inside a start: that start itself does not answer them. */
  lemma InnerRequestsAnswered(es: seq<Event>, states: seq<State>, i: nat, j: nat)
    requires Trace(es, states) && i < j <= |es| && Begins(states[i], states[i + 1]) && During(es[i]) > 0
    ensures Answered(states[i + 1].stats.starts, states[i].stats.retryExhaustions, states[j])
  {
    RunInv(es, states, i);
    assert Position(i);
    RequestAnswered(states[i], es[i], states[i + 1]);
    AnsweredFrom(es, states, states[i + 1].stats.starts, states[i].stats.retryExhaustions, i + 1, j);
  }

  // --------------------------------------------------- bursts of failures

  /** What is told of a run so far. */
  datatype History = History(
    successes: nat,
    burst: seq<nat>,        // the retry delays since the last success or request to an idle pump
    failedStarts: nat,      // failing starts since then
    served: nat,            // requests followed by a start
    waiting: nat,           // requests since the last start
    dropped: nat)           // requests given up when the retries ran out

  const NOTHING := History(0, [], 0, 0, 0, 0)

  predicate Succeeds(before: State, e: Event, after: State) {
    if e.Callback? then e.ok else Begins(before, after) && e.outcome.ending == CallsBack(true)
  }

  predicate Opens(before: State, e: Event) {
    e.Request? && !Busy(before)
  }

  predicate GivesUp(before: State, after: State) {
    after.stats.retryExhaustions > before.stats.retryExhaustions
  }

  /** One event more, told from the event, the counters of the pump and the delay of a new timer. */
  function Tell(h: History, before: State, e: Event, after: State): History {
    TellRequests(TellBurst(h, before, e, after), before, e, after)
  }

  function TellBurst(h: History, before: State, e: Event, after: State): History {
    if Succeeds(before, e, after) then h.(successes := h.successes + 1, burst := [], failedStarts := 0)
    else
      var h := if Opens(before, e) then h.(burst := [], failedStarts := 0) else h;
      h.(failedStarts := h.failedStarts + if after.stats.failures > before.stats.failures then 1 else 0,
         burst := h.burst + if after.stats.retrySchedules > before.stats.retrySchedules then [after.delay] else [])
  }

  function TellRequests(h: History, before: State, e: Event, after: State): History {
    var due := h.waiting + if e.Request? then 1 else 0;
    var left := if Begins(before, after) then During(e) else due;
    h.(served := h.served + if Begins(before, after) then due else 0,
       waiting := if GivesUp(before, after) then 0 else left,
       dropped := h.dropped + if GivesUp(before, after) then left else 0)
  }

  function Told(es: seq<Event>, states: seq<State>, i: nat): History
    requires |states| == |es| + 1 && i <= |es|
  {
    if i == 0 then NOTHING else Tell(Told(es, states, i - 1), states[i - 1], es[i - 1], states[i])
  }

  /**
   A burst has at most five failing starts, with retries 1, 2, 4 and 8 ms apart, and only a burst that is over
   has used all five.
   */
  predicate BurstOk(s: State, h: History) {
    && h.burst == [1, 2, 4, 8][..Min(4, s.retryCount)]
    && h.failedStarts == s.retryCount + (if h.failedStarts == 5 then 1 else 0)
    && (h.failedStarts == 5 ==> !Busy(s))
    && (!Busy(s) ==> h.failedStarts == 0 || h.failedStarts == 5)
  }

  /** A request has been followed by a start, waits for one that is coming, or was dropped. */
  predicate Conserved(s: State, h: History) {
    && s.stats.starts == h.successes + s.stats.failures + (if s.running then 1 else 0)
    && s.stats.requests == h.served + h.waiting + h.dropped
    && (h.waiting > 0 ==> s.pending)
    && (s.stats.retryExhaustions == 0 ==> h.dropped == 0)
  }
  /** How a start, or a start that was running, ends. */
  datatype Close = Won | Retried | Lost | Open

  function CloseOf(before: State, e: Event, after: State): Close {
    if Succeeds(before, e, after) then Won
    else if after.stats.retrySchedules > before.stats.retrySchedules then Retried
    else if GivesUp(before, after) then Lost
    else Open
  }

  /** What an event can do, by how it closes a start. */
  predicate Closes(before: State, e: Event, after: State) {
    var count := if Opens(before, e) then 0 else before.retryCount;
    match CloseOf(before, e, after)
    case Won =>
      && after.retryCount == 0 && !after.running && !after.retryTimer
      && after.stats.failures == before.stats.failures && !GivesUp(before, after)
    case Retried =>
      && count < 4 && after.retryCount == count + 1 && after.retryTimer && after.delay == [1, 2, 4, 8][count]
      && after.stats.failures == before.stats.failures + 1 && !GivesUp(before, after)
    case Lost =>
      && count == 4 && after.retryCount == count && !Busy(after) && !after.pending
      && after.stats.failures == before.stats.failures + 1
    case Open =>
      && after.retryCount == count && after.stats.failures == before.stats.failures
      && Busy(after)
  }

  lemma EndCloses(s: State, ending: Ending)
    requires s.retryCount <= 4
    ensures var r := End(s, ending);
      && (ending == Later ==> r == s)
      && (ending == CallsBack(true) ==> r == Succeed(s))
      && (ending != Later && ending != CallsBack(true) ==> r == Fail(s))
  {
  }

  lemma StepCloses(before: State, e: Event, after: State)
    requires Inv(before) && Happens(before, e, after)
    ensures Closes(before, e, after)
  {
    Delays();
    if StartsOn(before, e) {
      StepIsRun(before, e);
      EndCloses(Coalesce(Started(From(before, e)), e.outcome.during), e.outcome.ending);
    } else if e.Callback? {
      EndCloses(before, CallsBack(e.ok));
    }
  }

  lemma BurstKept(h: History, before: State, e: Event, after: State)
    requires Inv(before) && Enabled(before, e) && Closes(before, e, after) && BurstOk(before, h)
    requires !Busy(before) ==> after.stats.starts > before.stats.starts
    ensures BurstOk(after, TellBurst(h, before, e, after))
  {
  }

  lemma ConservedKept(h: History, before: State, e: Event, after: State)
    requires Inv(before) && Happens(before, e, after) && Conserved(before, h)
    ensures Conserved(after, Tell(h, before, e, after))
  {
    StepCounts(before, e, after);
    RequestAnswered(before, e, after);
  }

  predicate HistoryOk(s: State, h: History) {
    BurstOk(s, h) && Conserved(s, h)
  }

  lemma NextHistory(es: seq<Event>, states: seq<State>, k: nat)
    requires Trace(es, states) && k < |es| && HistoryOk(states[k], Told(es, states, k))
    ensures HistoryOk(states[k + 1], Told(es, states, k + 1))
  {
    var h, before, e, after := Told(es, states, k), states[k], es[k], states[k + 1];
    RunInv(es, states, k);
    assert Position(k);
    StepCounts(before, e, after);
    StepCloses(before, e, after);
    BurstKept(h, before, e, after);
    ConservedKept(h, before, e, after);
    assert Told(es, states, k + 1) == Tell(h, before, e, after);
  }

  /** In every run. */
  lemma {:induction false} RunHistory(es: seq<Event>, states: seq<State>, i: nat)
    requires Trace(es, states) && i <= |es|
    ensures HistoryOk(states[i], Told(es, states, i))
  {
    if i > 0 {
      RunHistory(es, states, i - 1);
      NextHistory(es, states, i - 1);
    }
  }

  /**
   However many requests coalesce meanwhile, a burst has at most five failing starts, and after the fifth the
   pump is idle.
   */
  lemma AtMostFiveFailures(es: seq<Event>, states: seq<State>, i: nat)
    requires Trace(es, states) && i <= |es|
    ensures Told(es, states, i).failedStarts <= 5 && Told(es, states, i).burst <= [1, 2, 4, 8]
    ensures Told(es, states, i).failedStarts == 5 ==>
      var s := states[i]; !s.running && !s.pending && !s.dispatchScheduled && !s.retryTimer
  {
    RunHistory(es, states, i);
    RunInv(es, states, i);
  }

  /** It gives up only then: at the fifth failing start of a burst, with all four retries behind it. */
  lemma GivesUpAfterFive(es: seq<Event>, states: seq<State>, k: nat)
    requires Trace(es, states) && k < |es| && GivesUp(states[k], states[k + 1])
    ensures Told(es, states, k + 1).failedStarts == 5 && Told(es, states, k + 1).burst == [1, 2, 4, 8]
  {
    var h, before, e, after := Told(es, states, k), states[k], es[k], states[k + 1];
    RunInv(es, states, k);
    RunHistory(es, states, k);
    RunHistory(es, states, k + 1);
    assert Position(k);
    StepCloses(before, e, after);
    LostIsFifth(h, before, e, after);
  }

  lemma LostIsFifth(h: History, before: State, e: Event, after: State)
    requires Inv(before) && Enabled(before, e) && Closes(before, e, after) && GivesUp(before, after)
    requires BurstOk(before, h) && BurstOk(after, Tell(h, before, e, after))
    ensures Tell(h, before, e, after).failedStarts == 5 && Tell(h, before, e, after).burst == [1, 2, 4, 8]
  {
  }

  /** An idle pump owes nothing: each request was followed by a start, or the retries ran out after it. */
  lemma IdleOwesNothing(es: seq<Event>, states: seq<State>, i: nat)
    requires Trace(es, states) && i <= |es| && Remaining(states[i]) == 0
    ensures !Busy(states[i]) && Told(es, states, i).waiting == 0
    ensures AllAsked(es, states, i) == Told(es, states, i).served + Told(es, states, i).dropped
    ensures states[i].stats.retryExhaustions == 0 ==> AllAsked(es, states, i) == Told(es, states, i).served
  {
    RunInv(es, states, i);
    RunHistory(es, states, i);
    RequestsCounted(es, states, i);
    RemainingZero(states[i]);
  }

  /** A request that finds the pump idle, after an exhaustion too, starts at once and opens a fresh burst. */
  lemma IdleRequestStarts(es: seq<Event>, states: seq<State>, k: nat)
    requires Trace(es, states) && k < |es| && es[k].Request? && !Busy(states[k])
    ensures states[k + 1].stats.starts == states[k].stats.starts + 1
    ensures Told(es, states, k + 1).served == Told(es, states, k).served + Told(es, states, k).waiting + 1
    ensures es[k].outcome.ending.Throws? ==>
      states[k + 1].retryTimer && states[k + 1].delay == 1 && Told(es, states, k + 1).burst == [1]
  {
    var before, e, after := states[k], es[k], states[k + 1];
    RunInv(es, states, k);
    assert Position(k);
    StepCounts(before, e, after);
    StepCloses(before, e, after);
    FreshThrow(before, e, after);
    RunHistory(es, states, k + 1);
    assert Told(es, states, k + 1) == Tell(Told(es, states, k), before, e, after);
  }

  lemma FreshThrow(before: State, e: Event, after: State)
    requires Inv(before) && Happens(before, e, after) && Opens(before, e)
    ensures e.outcome.ending.Throws? ==> after.retryTimer && after.delay == 1 && after.retryCount == 1
  {
    Delays();
    StepIsRun(before, e);
    EndCloses(Coalesce(Started(From(before, e)), e.outcome.during), e.outcome.ending);
  }

  // -------------------------------------------------- running out of events

  /** How many more callbacks, microtasks and timers can fire before the pump is idle. */
  function Remaining(s: State): nat {
    if s.retryTimer then 10 - 2 * Min(s.retryCount, 4)
    else if s.dispatchScheduled then 10
    else if !s.running then 0
    else if s.pending then 11
    else 9 - 2 * Min(s.retryCount, 4)
  }

  predicate Quiet(e: Event) {
    match e
    case Request(_) => false
    case Callback(_) => true
    case Microtask(o) => o.during == 0
    case Timer(o) => o.during == 0
  }

  /** While no further request arrives, every event brings the pump closer to being idle. */
  lemma QuietEventsRunOut(s: State, e: Event)
    requires Inv(s) && Enabled(s, e) && Quiet(e)
    ensures Remaining(Step(s, e)) < Remaining(s) <= 11
  {
  }

  lemma RemainingZero(s: State)
    requires Inv(s)
    ensures Remaining(s) == 0 <==> !Busy(s)
  {
  }

  /** A pump that is not idle has an event to wait for. */
  lemma BusyHasEvent(es: seq<Event>, states: seq<State>, i: nat)
    requires Trace(es, states) && i <= |es| && Remaining(states[i]) > 0
    ensures exists e: Event :: Enabled(states[i], e) && Quiet(e)
  {
    var s := states[i];
    RunInv(es, states, i);
    RemainingZero(s);
    var o := Outcome(0, Later);
    if s.running {
      assert Enabled(s, Callback(true)) && Quiet(Callback(true));
    } else if s.retryTimer {
      assert Enabled(s, Timer(o)) && Quiet(Timer(o));
    } else {
      assert Enabled(s, Microtask(o)) && Quiet(Microtask(o));
    }
  }
}
