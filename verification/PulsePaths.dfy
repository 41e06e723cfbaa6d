/**
 The control-flow check of GaiusChunkLayerBytecodeVerifier: does every path from an instruction
 reach a call of the worldgen pulse?
 */
module PulsePaths {
  import opened Common

  /** One node of an instruction list; labels are positions in the same list. */
  datatype Insn =
    | Pseudo                                         // label, line number or frame: opcode -1
    | Pulse                                          // BrowserWorldgenScheduler.pulse()
    | Exit                                           // a return, athrow or ret
    | Jump(conditional: bool, target: nat)           // unconditional: goto and jsr
    | Switch(dflt: nat, labels: seq<nat>)
    | Plain

  type Code = seq<Insn>

  // ------------------------------------------------------- the graph

  function FirstExecutable(code: Code, i: nat): (r: Option<nat>)
    ensures r.Some? ==> i <= r.value < |code| && !code[r.value].Pseudo?
    ensures r.Some? ==> forall k :: i <= k < r.value ==> code[k].Pseudo?
    ensures r.None? ==> forall k :: i <= k < |code| ==> code[k].Pseudo?
    decreases |code| - i
  {
    if i >= |code| then None
    else if code[i].Pseudo? then FirstExecutable(code, i + 1)
    else Some(i)
  }

  function AsList(o: Option<nat>): seq<nat> {
    if o.Some? then [o.value] else []
  }

  function Targets(code: Code, labels: seq<nat>): (r: seq<nat>)
    ensures forall j :: j in r ==> j < |code|
  {
    if labels == [] then []
    else Targets(code, labels[..|labels| - 1]) + AsList(FirstExecutable(code, labels[|labels| - 1]))
  }

  function Successors(code: Code, i: nat): (r: seq<nat>)
    requires i < |code|
    ensures forall j :: j in r ==> j < |code|
  {
    match code[i]
    case Jump(conditional, target) =>
      AsList(FirstExecutable(code, target)) + if conditional then AsList(FirstExecutable(code, i + 1)) else []
    case Switch(dflt, labels) => AsList(FirstExecutable(code, dflt)) + Targets(code, labels)
    case Exit => []
    case _ => AsList(FirstExecutable(code, i + 1))
  }

  // ------------------------------------------ control flow, apart from the list

  /** Control sent to position t goes on at j: the first instruction there that is not a pseudo instruction. */
  ghost predicate LandsOn(code: Code, t: nat, j: nat) {
    t <= j < |code| && !code[j].Pseudo? && forall k :: t <= k < j ==> code[k].Pseudo?
  }

  /** One step of control flow from i to j. */
  ghost predicate CanFollow(code: Code, i: nat, j: nat)
    requires i < |code|
    ensures CanFollow(code, i, j) ==> j < |code|
  {
    match code[i]
    case Jump(true, target) => LandsOn(code, target, j) || LandsOn(code, i + 1, j)
    case Jump(false, target) => LandsOn(code, target, j)
    case Switch(dflt, labels) => LandsOn(code, dflt, j) || exists t :: t in labels && LandsOn(code, t, j)
    case Exit => false
    case _ => LandsOn(code, i + 1, j)
  }

  ghost predicate Stops(code: Code, i: nat)
    requires i < |code|
  {
    forall j :: !CanFollow(code, i, j)
  }

  lemma FirstLands(code: Code, t: nat)
    ensures forall j :: j in AsList(FirstExecutable(code, t)) <==> LandsOn(code, t, j)
  {
  }

  lemma {:induction false} TargetsLand(code: Code, labels: seq<nat>)
    ensures forall j :: j in Targets(code, labels) <==> exists t :: t in labels && LandsOn(code, t, j)
  {
    if labels != [] {
      var last := |labels| - 1;
      TargetsLand(code, labels[..last]);
      FirstLands(code, labels[last]);
      assert labels == labels[..last] + [labels[last]];
    }
  }

  /** The successor list holds the instructions that control can go to next, and nothing else. */
  lemma SuccessorsFollow(code: Code, i: nat)
    requires i < |code|
    ensures forall j :: j in Successors(code, i) <==> CanFollow(code, i, j)
    ensures Successors(code, i) == [] <==> Stops(code, i)
  {
    var next := Successors(code, i);
    match code[i] {
      case Jump(_, target) => FirstLands(code, target); FirstLands(code, i + 1);
      case Switch(dflt, labels) => FirstLands(code, dflt); TargetsLand(code, labels);
      case _ => FirstLands(code, i + 1);
    }
    assert forall j :: j in next <==> CanFollow(code, i, j);
    if next != [] { assert next[0] in next; }
  }

  // -------------------------------------------- what the check decides

  /** p follows the control flow and meets no pulse. */
  ghost predicate PulseFree(code: Code, p: seq<nat>) {
    && (forall k :: 0 <= k < |p| ==> p[k] < |code| && !code[p[k]].Pulse?)
    && (forall k :: 0 <= k < |p| - 1 ==> CanFollow(code, p[k], p[k + 1]))
  }

  /** p is a way around the pulse: it ends where the code stops, or it runs into itself. */
  ghost predicate Evades(code: Code, p: seq<nat>) {
    && p != [] && PulseFree(code, p)
    && var last := p[|p| - 1];
       Stops(code, last) || exists j :: j in p && CanFollow(code, last, j)
  }

  ghost predicate Escapes(code: Code, i: nat) {
    exists p: seq<nat> :: Evades(code, p) && p[0] == i
  }

  /** The least set that holds pulses, and each instruction control can leave whose successors are all in it. */
  ghost predicate HitsWithin(code: Code, i: nat, n: nat)
    requires i < |code|
    decreases n
  {
    || code[i].Pulse?
    || (n > 0 && !Stops(code, i) && forall j :: CanFollow(code, i, j) ==> HitsWithin(code, j, n - 1))
  }

  ghost predicate AlwaysHits(code: Code, i: nat)
    requires i < |code|
  {
    exists n: nat :: HitsWithin(code, i, n)
  }

  lemma {:induction false} HitsMonotone(code: Code, i: nat, m: nat, n: nat)
    requires i < |code| && m <= n && HitsWithin(code, i, m)
    ensures HitsWithin(code, i, n)
    decreases m
  {
    if !code[i].Pulse? {
      HitsFromNext(code, i, n) by {
        forall j | CanFollow(code, i, j) ensures HitsWithin(code, j, n - 1) {
          HitsMonotone(code, j, m - 1, n - 1);
        }
      }
    }
  }

  lemma HitsFromNext(code: Code, i: nat, n: nat)
    requires i < |code| && !Stops(code, i) && n > 0
    requires forall j :: CanFollow(code, i, j) ==> HitsWithin(code, j, n - 1)
    ensures HitsWithin(code, i, n)
  {
  }

  /** Along a pulse-free path the bound on the distance to a pulse falls at every step. */
  lemma {:induction false} BoundFalls(code: Code, p: seq<nat>, k: nat, n: nat)
    requires PulseFree(code, p) && k < |p| && HitsWithin(code, p[0], n)
    ensures n >= k && HitsWithin(code, p[k], n - k)
    decreases k
  {
    if k > 0 {
      BoundFalls(code, p, k - 1, n);
    }
  }

  /** From a node on a way around the pulse no bound works. */
  lemma {:induction false} EvadersNeverHit(code: Code, p: seq<nat>, k: nat, n: nat)
    requires Evades(code, p) && k < |p|
    ensures !HitsWithin(code, p[k], n)
    decreases n
  {
    if HitsWithin(code, p[k], n) {
      var rest, last := p[k..], |p| - 1;
      SuffixPulseFree(code, p, k);
      BoundFalls(code, rest, last - k, n);
      assert rest[last - k] == p[last];
      var j :| CanFollow(code, p[last], j) && j in p;
      var m :| 0 <= m < |p| && p[m] == j;
      EvadersNeverHit(code, p, m, n - (last - k) - 1);
    }
  }

  lemma SuffixPulseFree(code: Code, p: seq<nat>, k: nat)
    requires PulseFree(code, p) && k <= |p|
    ensures PulseFree(code, p[k..])
  {
    var q := p[k..];
    forall x | 0 <= x < |q| - 1 ensures CanFollow(code, q[x], q[x + 1]) {
      assert q[x] == p[k + x] && q[x + 1] == p[(k + x) + 1];
    }
  }

  lemma PushPulseFree(code: Code, p: seq<nat>, i: nat)
    requires PulseFree(code, p) && i < |code| && !code[i].Pulse?
    requires p != [] ==> CanFollow(code, p[|p| - 1], i)
    ensures PulseFree(code, p + [i])
    ensures forall k :: k in p + [i] <==> k in p || k == i
  {
    var q := p + [i];
    forall k | 0 <= k < |p| ensures CanFollow(code, q[k], q[k + 1]) {
      PushLinked(code, p, i, k);
    }
  }

  lemma PushLinked(code: Code, p: seq<nat>, i: nat, k: nat)
    requires PulseFree(code, p) && k < |p| && CanFollow(code, p[|p| - 1], i)
    ensures CanFollow(code, (p + [i])[k], (p + [i])[k + 1])
  {
    assert k < |p| - 1 ==> (p + [i])[k + 1] == p[k + 1];
  }

  /** One bound for the nodes checked so far and the next one. */
  lemma RaiseBound(code: Code, checked: seq<nat>, i: nat, bound: nat) returns (larger: nat)
    requires forall m :: 0 <= m < |checked| ==> checked[m] < |code| && HitsWithin(code, checked[m], bound)
    requires i < |code| && AlwaysHits(code, i)
    ensures forall m :: 0 <= m < |checked| ==> HitsWithin(code, checked[m], larger)
    ensures HitsWithin(code, i, larger)
  {
    var n: nat :| HitsWithin(code, i, n);
    larger := if n > bound then n else bound;
    forall m | 0 <= m < |checked| ensures HitsWithin(code, checked[m], larger) {
      HitsMonotone(code, checked[m], bound, larger);
    }
    HitsMonotone(code, i, n, larger);
  }

  lemma HitsExcludesEscape(code: Code, i: nat)
    requires i < |code|
    ensures !(AlwaysHits(code, i) && Escapes(code, i))
  {
    if AlwaysHits(code, i) && Escapes(code, i) {
      var n: nat :| HitsWithin(code, i, n);
      var p :| Evades(code, p) && p[0] == i;
      EvadersNeverHit(code, p, 0, n);
    }
  }

  /** The part of a pulse-free path from an instruction on, when the path leads back to it. */
  lemma StackCycle(code: Code, stack: seq<nat>, i: nat)
    requires PulseFree(code, stack) && i in stack && CanFollow(code, stack[|stack| - 1], i)
    ensures Escapes(code, i)
  {
    var j :| 0 <= j < |stack| && stack[j] == i;
    var p := stack[j..];
    assert p[0] == i && p[|p| - 1] == stack[|stack| - 1];
    SuffixPulseFree(code, stack, j);
    assert p[0] in p;
    assert Evades(code, p);
  }

  lemma EscapeThrough(code: Code, i: nat, j: nat)
    requires i < |code| && !code[i].Pulse? && CanFollow(code, i, j) && Escapes(code, j)
    ensures Escapes(code, i)
  {
    var q :| Evades(code, q) && q[0] == j;
    var p := [i] + q;
    forall k | 0 <= k < |p| - 1 ensures CanFollow(code, p[k], p[k + 1]) {
      assert p[k + 1] == q[k];
      if k > 0 { assert p[k] == q[k - 1] && CanFollow(code, q[k - 1], q[(k - 1) + 1]); }
    }
    assert p[|p| - 1] == q[|q| - 1];
    assert forall x :: x in q ==> x in p;
    assert Evades(code, p);
  }

  function Range(n: nat): set<nat> {
    if n == 0 then {} else Range(n - 1) + {n - 1}
  }

  lemma {:induction false} InRange(n: nat, i: nat)
    requires i < n
    ensures i in Range(n)
  {
    if i < n - 1 { InRange(n - 1, i); }
  }

  /** Marking a node leaves fewer nodes to mark. */
  lemma FewerLeft(nodes: set<nat>, marked: set<nat>, i: nat)
    requires i in nodes && i !in marked
    ensures |nodes - (marked + {i})| < |nodes - marked|
  {
    var left := nodes - marked;
    assert nodes - (marked + {i}) == left - {i};
  }

  lemma {:induction false} CommonBound(code: Code, nodes: seq<nat>) returns (bound: nat)
    requires forall m :: 0 <= m < |nodes| ==> nodes[m] < |code| && AlwaysHits(code, nodes[m])
    ensures forall m :: 0 <= m < |nodes| ==> HitsWithin(code, nodes[m], bound)
    decreases |nodes|
  {
    bound := 0;
    if nodes != [] {
      var last := |nodes| - 1;
      bound := CommonBound(code, nodes[..last]);
      bound := RaiseBound(code, nodes[..last], nodes[last], bound);
    }
  }

  lemma PushInstruction(code: Code, stack: seq<nat>, i: nat, nodes: set<nat>, marked: set<nat>)
    returns (longer: seq<nat>)
    requires PulseFree(code, stack) && i < |code| && !code[i].Pulse? && i in nodes && i !in stack
    requires stack != [] ==> CanFollow(code, stack[|stack| - 1], i)
    requires forall k :: k in marked <==> k in stack
    ensures PulseFree(code, longer) && longer != [] && longer[|longer| - 1] == i
    ensures forall k :: k in marked + {i} <==> k in longer
    ensures |nodes - (marked + {i})| < |nodes - marked|
  {
    longer := stack + [i];
    PushPulseFree(code, stack, i);
    FewerLeft(nodes, marked, i);
  }

  /** An instruction is in the least set, or there is a way around the pulse from it. */
  lemma {:induction false} HitsOrEscapes(code: Code, i: nat, stack: seq<nat>, nodes: set<nat>, marked: set<nat>)
    requires i < |code| && PulseFree(code, stack)
    requires stack != [] ==> CanFollow(code, stack[|stack| - 1], i)
    requires (forall k :: k in marked <==> k in stack) && (forall k :: 0 <= k < |code| ==> k in nodes)
    ensures AlwaysHits(code, i) || Escapes(code, i)
    decreases |nodes - marked|
  {
    if code[i].Pulse? || Stops(code, i) {
      Decided(code, i);
    } else if i in stack {
      StackCycle(code, stack, i);
    } else {
      var longer := PushInstruction(code, stack, i, nodes, marked);
      forall j | CanFollow(code, i, j) ensures AlwaysHits(code, j) || Escapes(code, j) {
        HitsOrEscapes(code, j, longer, nodes, marked + {i});
      }
      FromSuccessors(code, i);
    }
  }

  lemma Decided(code: Code, i: nat)
    requires i < |code|
    ensures code[i].Pulse? ==> AlwaysHits(code, i)
    ensures !code[i].Pulse? && Stops(code, i) ==> Escapes(code, i)
  {
    if code[i].Pulse? {
      assert HitsWithin(code, i, 0);
    } else if Stops(code, i) {
      assert Evades(code, [i]);
    }
  }

  lemma HitsFromList(code: Code, i: nat, next: seq<nat>, bound: nat)
    requires i < |code| && next == Successors(code, i) != []
    requires forall m :: 0 <= m < |next| ==> next[m] < |code| && HitsWithin(code, next[m], bound)
    ensures HitsWithin(code, i, bound + 1)
  {
    SuccessorsFollow(code, i);
    forall j | CanFollow(code, i, j) ensures HitsWithin(code, j, bound) {
      assert j in next;
    }
    HitsFromNext(code, i, bound + 1);
  }

  lemma FromSuccessors(code: Code, i: nat)
    requires i < |code| && !code[i].Pulse? && !Stops(code, i)
    requires forall j :: CanFollow(code, i, j) ==> AlwaysHits(code, j) || Escapes(code, j)
    ensures AlwaysHits(code, i) || Escapes(code, i)
  {
    if j :| CanFollow(code, i, j) && Escapes(code, j) {
      EscapeThrough(code, i, j);
    } else {
      SuccessorsFollow(code, i);
      var next := Successors(code, i);
      assert forall m :: 0 <= m < |next| ==> next[m] in next;
      var bound := CommonBound(code, next);
      HitsFromList(code, i, next, bound);
    }
  }

  lemma HitsNeedsAll(code: Code, i: nat, j: nat)
    requires i < |code| && !code[i].Pulse? && CanFollow(code, i, j) && AlwaysHits(code, i)
    ensures AlwaysHits(code, j)
  {
    var n: nat :| HitsWithin(code, i, n);
    assert HitsWithin(code, j, n - 1);
  }

  /** The least set is exactly the set of instructions with no way around the pulse. */
  lemma EscapesExactly(code: Code, i: nat)
    requires i < |code|
    ensures AlwaysHits(code, i) <==> !Escapes(code, i)
  {
    HitsExcludesEscape(code, i);
    forall k | 0 <= k < |code| ensures k in Range(|code|) { InRange(|code|, k); }
    HitsOrEscapes(code, i, [], Range(|code|), {});
  }

  // ---------------------------------------------------- the search

  method FindFirstExecutable(code: Code, i: nat) returns (r: Option<nat>)
    ensures r == FirstExecutable(code, i)
  {
    var cursor := i;
    while cursor < |code| && code[cursor].Pseudo?
      invariant FirstExecutable(code, cursor) == FirstExecutable(code, i)
      decreases |code| - cursor
    {
      cursor := cursor + 1;
    }
    return if cursor < |code| then Some(cursor) else None;
  }

  method AddSuccessor(successors: seq<nat>, o: Option<nat>) returns (r: seq<nat>)
    ensures r == successors + AsList(o)
  {
    r := if o.Some? then successors + [o.value] else successors;
  }

  method ListTargets(code: Code, labels: seq<nat>) returns (r: seq<nat>)
    ensures r == Targets(code, labels)
  {
    r := [];
    for k := 0 to |labels|
      invariant r == Targets(code, labels[..k])
    {
      var target := FindFirstExecutable(code, labels[k]);
      r := AddSuccessor(r, target);
      assert labels[..k + 1][..k] == labels[..k];
    }
    assert labels[..|labels|] == labels;
  }

  method ListSuccessors(code: Code, i: nat) returns (r: seq<nat>)
    requires i < |code|
    ensures r == Successors(code, i)
  {
    r := [];
    match code[i]
    case Jump(conditional, target) =>
      var jump := FindFirstExecutable(code, target);
      r := AddSuccessor(r, jump);
      if conditional {
        var next := FindFirstExecutable(code, i + 1);
        r := AddSuccessor(r, next);
      }
    case Switch(dflt, labels) =>
      var first := FindFirstExecutable(code, dflt);
      var others := ListTargets(code, labels);
      r := AddSuccessor(r, first);
      r := r + others;
    case Exit =>
    case _ =>
      var next := FindFirstExecutable(code, i + 1);
      r := AddSuccessor(r, next);
  }

  lemma ExitNeverHits(code: Code, i: nat)
    requires i < |code| && code[i].Exit?
    ensures !AlwaysHits(code, i)
  {
    Decided(code, i);
    HitsExcludesEscape(code, i);
  }

  lemma ActiveNeverHits(code: Code, stack: seq<nat>, i: nat)
    requires PulseFree(code, stack) && i in stack && i < |code| && CanFollow(code, stack[|stack| - 1], i)
    ensures !AlwaysHits(code, i)
  {
    StackCycle(code, stack, i);
    HitsExcludesEscape(code, i);
  }

  class PathSearch {
    const code: Code
    var memo: map<nat, bool>
    var active: set<nat>

    constructor (code: Code)
      ensures this.code == code && memo == map[] && active == {}
    {
      this.code, memo, active := code, map[], {};
    }

    /** Every memo entry is right for good, whatever was active when it was stored. */
    ghost predicate MemoRight()
      reads this
    {
      forall i :: i in memo ==> i < |code| && (memo[i] <==> AlwaysHits(code, i))
    }

    /** The active set is the call stack: a pulse-free path that leads to the instruction under test. */
    ghost predicate OnStack(stack: seq<nat>, i: nat)
      reads this
    {
      && PulseFree(code, stack)
      && (forall k :: k in active <==> k in stack)
      && (stack != [] ==> CanFollow(code, stack[|stack| - 1], i))
    }

    method EveryPathHitsPulse(i: nat, ghost stack: seq<nat>) returns (r: bool)
      requires i < |code| && MemoRight() && OnStack(stack, i)
      modifies this
      ensures MemoRight() && active == old(active)
      ensures r <==> AlwaysHits(code, i)
      decreases |Range(|code|) - active|, 0
    {
      if code[i].Pulse? {
        Decided(code, i);
        return true;
      }
      if code[i].Exit? {
        ExitNeverHits(code, i);
        return false;
      }
      if i in memo {
        return memo[i];
      }
      if i in active {
        ActiveNeverHits(code, stack, i);
        return false;
      }
      active := active + {i};
      PushPulseFree(code, stack, i);
      InRange(|code|, i);
      FewerLeft(Range(|code|), old(active), i);
      r := AllSuccessorsHit(i, stack + [i]);
      active := active - {i};
      assert active == old(active);
      memo := memo[i := r];
    }

    /** The loop over the successors of an instruction that has just been pushed. */
    method AllSuccessorsHit(i: nat, ghost path: seq<nat>) returns (allPathsHit: bool)
      requires i < |code| && !code[i].Pulse? && MemoRight()
      requires PulseFree(code, path) && (forall k :: k in active <==> k in path)
      requires path != [] && path[|path| - 1] == i
      modifies this
      ensures MemoRight() && active == old(active)
      ensures allPathsHit <==> AlwaysHits(code, i)
      decreases |Range(|code|) - active|, 1
    {
      var next := ListSuccessors(code, i);
      SuccessorsFollow(code, i);
      if next == [] {
        Decided(code, i);
        HitsExcludesEscape(code, i);
        return false;
      }
      ghost var bound: nat := 0;
      for k := 0 to |next|
        invariant MemoRight() && active == old(active)
        invariant forall m :: 0 <= m < k ==> next[m] < |code| && HitsWithin(code, next[m], bound)
      {
        assert next[k] in next;
        var hit := EveryPathHitsPulse(next[k], path);
        if !hit {
          if AlwaysHits(code, i) { HitsNeedsAll(code, i, next[k]); }
          return false;
        }
        bound := RaiseBound(code, next[..k], next[k], bound);
        assert forall m :: 0 <= m < k ==> next[..k][m] == next[m];
      }
      HitsFromList(code, i, next, bound);
      return true;
    }
  }
}
