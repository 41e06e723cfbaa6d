/**
 The integrated-server input pump: requests, thread callbacks, microtasks and retry timers
 drive one state machine that keeps at most one pump thread alive.
 */
module ServerPump {
  import opened Common

  const MAX_RETRIES: nat := 4

  /** What the runtime's thread starter does with one start. It throws, or it calls back exactly once:
      before it returns, or in a later turn. */
  datatype Ending = Throws | CallsBack(ok: bool) | Later

  /** `during` further requests arrive from inside the starter, before it ends. */
  datatype Outcome = Outcome(during: nat, ending: Ending)

  datatype Event =
    | Request(outcome: Outcome)
    | Callback(ok: bool)
    | Microtask(outcome: Outcome)
    | Timer(outcome: Outcome)

  datatype Stats = Stats(
    requests: nat, starts: nat, failures: nat, coalesced: nat, retrySchedules: nat, retryExhaustions: nat)

  /** The variables of the shim; delay is what the last retry timer was set to. */
  datatype State = State(
    running: bool, pending: bool, dispatchScheduled: bool, retryTimer: bool, delay: nat, retryCount: nat, stats: Stats)

  const IDLE := State(false, false, false, false, 0, 0, Stats(0, 0, 0, 0, 0, 0))

  // ---------------------------------------------------- the transitions

  function Delay(retryCount: nat): nat
    requires retryCount >= 1
  {
    Min(8, Shift1(Min(3, retryCount - 1)))
  }

  function Shift1(k: nat): nat { if k == 0 then 1 else 2 * Shift1(k - 1) }

  function Coalesce(s: State, n: nat): State {
    if n == 0 then s
    else s.(
      pending := true,
      stats := s.stats.(requests := s.stats.requests + n, coalesced := s.stats.coalesced + n))
  }

  function Fail(s: State): State {
    var st := s.stats.(failures := s.stats.failures + 1);
    if s.retryCount < MAX_RETRIES then
      var count := s.retryCount + 1;
      s.(running := false, pending := true, retryCount := count, retryTimer := true, delay := Delay(count),
         stats := st.(retrySchedules := st.retrySchedules + 1))
    else
      s.(running := false, pending := false, stats := st.(retryExhaustions := st.retryExhaustions + 1))
  }

  function Succeed(s: State): State {
    s.(running := false, retryCount := 0, dispatchScheduled := s.dispatchScheduled || s.pending)
  }

  function Started(s: State): State {
    s.(pending := false, running := true, stats := s.stats.(starts := s.stats.starts + 1))
  }

  function End(s: State, ending: Ending): State {
    match ending
    case Throws => Fail(s)
    case CallsBack(ok) => if ok then Succeed(s) else Fail(s)
    case Later => s
  }

  function Run(s: State, o: Outcome): State {
    End(Coalesce(Started(s), o.during), o.ending)
  }

  predicate Busy(s: State) {
    s.running || s.dispatchScheduled || s.retryTimer
  }

  /** A request that finds the pump idle starts a new burst. */
  function Fresh(s: State): State {
    s.(retryCount := 0, stats := s.stats.(requests := s.stats.requests + 1))
  }

  predicate Enabled(s: State, e: Event) {
    match e
    case Request(_) => true
    case Callback(_) => s.running
    case Microtask(_) => s.dispatchScheduled
    case Timer(_) => s.retryTimer
  }

  function Step(s: State, e: Event): State {
    match e
    case Request(o) => if Busy(s) then Coalesce(s, 1) else Run(Fresh(s), o)
    case Callback(ok) => End(s, CallsBack(ok))
    case Microtask(o) =>
      var t := s.(dispatchScheduled := false);
      if t.pending then Run(t, o) else t
    case Timer(o) =>
      var t := s.(retryTimer := false);
      if t.pending then Run(t, o) else t
  }

  ghost predicate Happens(before: State, e: Event, after: State) {
    Enabled(before, e) && after == Step(before, e)
  }

  /** The states that a sequence of events goes through. */
  ghost predicate Trace(es: seq<Event>, states: seq<State>) {
    && |states| == |es| + 1 && states[0] == IDLE
    && forall i :: 0 <= i < |es| ==> Happens(states[i], es[i], states[i + 1])
  }

  // --------------------------------------------------------- the shim

  /** The module-level variables of the emitted script and the functions that update them. */
  class Pump {
    var running: bool
    var pending: bool
    var dispatchScheduled: bool
    var retryTimer: bool
    var delay: nat
    var retryCount: nat
    var stats: Stats

    ghost function View(): State
      reads this
    {
      State(running, pending, dispatchScheduled, retryTimer, delay, retryCount, stats)
    }

    constructor ()
      ensures View() == IDLE
    {
      running, pending, dispatchScheduled, retryTimer, delay, retryCount := false, false, false, false, 0, 0;
      stats := Stats(0, 0, 0, 0, 0, 0);
    }

    /** __gaiusStartIntegratedServerPump */
    method RequestPump(o: Outcome)
      modifies this
      ensures View() == Step(old(View()), Request(o))
    {
      stats := stats.(requests := stats.requests + 1);
      if running || dispatchScheduled || retryTimer {
        pending := true;
        stats := stats.(coalesced := stats.coalesced + 1);
        return;
      }
      retryCount := 0;
      RunPump(o);
    }

    method FailPump()
      modifies this
      ensures View() == Fail(old(View()))
    {
      running := false;
      pending := true;
      stats := stats.(failures := stats.failures + 1);
      if retryCount < MAX_RETRIES {
        retryCount := retryCount + 1;
        stats := stats.(retrySchedules := stats.retrySchedules + 1);
        delay := Min(8, Shift1(Min(3, retryCount - 1)));
        retryTimer := true;
      } else {
        pending := false;
        stats := stats.(retryExhaustions := stats.retryExhaustions + 1);
      }
    }

    method RunPump(o: Outcome)
      modifies this
      ensures View() == Run(old(View()), o)
    {
      pending := false;
      running := true;
      stats := stats.(starts := stats.starts + 1);
      for i := 0 to o.during
        invariant View() == Coalesce(Started(old(View())), i)
      {
        RequestWhileRunning();
      }
      match o.ending
      case Throws => FailPump();
      case CallsBack(ok) => OnResult(ok);
      case Later =>
    }

    /** A request from inside the starter always takes the coalescing branch. */
    method RequestWhileRunning()
      requires running
      modifies this
      ensures View() == Coalesce(old(View()), 1)
    {
      stats := stats.(requests := stats.requests + 1, coalesced := stats.coalesced + 1);
      pending := true;
    }

    /** The thread's completion callback. */
    method OnResult(ok: bool)
      modifies this
      ensures View() == End(old(View()), CallsBack(ok))
    {
      if !ok {
        FailPump();
        return;
      }
      running := false;
      retryCount := 0;
      if pending {
        dispatchScheduled := true;
      }
    }

    method OnMicrotask(o: Outcome)
      modifies this
      ensures View() == Step(old(View()), Microtask(o))
    {
      dispatchScheduled := false;
      if pending { RunPump(o); }
    }

    method OnTimer(o: Outcome)
      modifies this
      ensures View() == Step(old(View()), Timer(o))
    {
      retryTimer := false;
      if pending { RunPump(o); }
    }
  }
}
