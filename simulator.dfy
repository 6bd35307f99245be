/**
 * The two automaton simulators and the epsilon-closure they share.
 *
 * `SimulateAutomaton` walks a single current state, taking the first edge
 * out of it whose label equals or contains the input symbol.
 * `SimulateAutomatonAdvanced` keeps a set of current states, steps it over
 * non-epsilon edges whose label is exactly the symbol, then closes it under
 * epsilon edges, and rejects as soon as a step leaves no state.
 *
 * Each method is proved equal to a recursive specification function
 * (`Simulate`, `Advanced`), and the lemmas below state what those
 * functions guarantee about the trace and the verdict.
 */
module Simulator {
  import opened Wrappers
  import opened Text
  import opened Automata

  /** What a step did; the source stores it in `action` as an English sentence naming the symbol (and the target). */
  datatype Action =
    | Read(symbol: char, target: string)
    | NoTransition(symbol: char)
    | NoValidTransitions(symbol: char)
    | Process(symbol: char)

  datatype SimulationStep = SimulationStep(currentState: string, inputSymbol: string, nextState: string, action: Action)

  datatype SimulationResult = SimulationResult(steps: seq<SimulationStep>, accepted: bool)

  // =====================================================================
  // simulateAutomaton: one current state, first matching edge
  // =====================================================================

  /** The edge leaves `state` and its label equals, or contains, the symbol. */
  predicate Matches(e: Edge, state: string, c: char)
  {
    e.source == state && (e.symbol == [c] || c in e.symbol)
  }

  /** `edges.find(...)` for the transition out of `state` on `c`, as the index it finds. */
  function FindTransition(edges: seq<Edge>, state: string, c: char): (r: Option<nat>)
    ensures r.None? <==> forall k :: 0 <= k < |edges| ==> !Matches(edges[k], state, c)
    ensures r.Some? ==>
      && r.value < |edges| && Matches(edges[r.value], state, c)
      && forall k :: 0 <= k < r.value ==> !Matches(edges[k], state, c)
  {
    if edges == [] then None
    else if Matches(edges[0], state, c) then Some(0)
    else match FindTransition(edges[1..], state, c)
      case None => None
      case Some(k) => Some(k + 1)
  }

  /** The trace of the single-state walk from `state` over `input`. */
  function Walk(a: Automaton, state: string, input: string): SimulationResult
    decreases |input|
  {
    if input == [] then SimulationResult([], state in AcceptIds(a))
    else
      var c := input[0];
      match FindTransition(a.edges, state, c)
      case None =>
        SimulationResult([SimulationStep(state, [c], state, NoTransition(c))], false)
      case Some(k) =>
        var t := a.edges[k].target;
        var rest := Walk(a, t, input[1..]);
        SimulationResult([SimulationStep(state, [c], t, Read(c, t))] + rest.steps, rest.accepted)
  }

  /** The specification of `simulateAutomaton`. */
  function Simulate(a: Automaton, input: string): SimulationResult
  {
    match StartId(a)
    case None => SimulationResult([], false)
    case Some(s) => Walk(a, s, input)
  }

  method SimulateAutomaton(a: Automaton, inputString: string) returns (r: SimulationResult)
    ensures r == Simulate(a, inputString)
    ensures StartId(a).None? ==> r.steps == [] && !r.accepted
  {
    var start := FindStart(a.nodes);
    if start.None? {
      return SimulationResult([], false);
    }
    var acceptStates := AcceptIds(a);
    var startId := a.nodes[start.value].id;
    var currentState := startId;
    var steps: seq<SimulationStep> := [];
    for i := 0 to |inputString|
      invariant steps + Walk(a, currentState, inputString[i..]).steps == Walk(a, startId, inputString).steps
      invariant Walk(a, currentState, inputString[i..]).accepted == Walk(a, startId, inputString).accepted
    {
      var symbol := inputString[i];
      assert inputString[i..][1..] == inputString[i + 1..];
      var transition := FindTransition(a.edges, currentState, symbol);
      if transition.Some? {
        var target := a.edges[transition.value].target;
        steps := steps + [SimulationStep(currentState, [symbol], target, Read(symbol, target))];
        currentState := target;
      } else {
        steps := steps + [SimulationStep(currentState, [symbol], currentState, NoTransition(symbol))];
        return SimulationResult(steps, false);
      }
    }
    assert inputString[|inputString|..] == [];
    var accepted := currentState in acceptStates;
    return SimulationResult(steps, accepted);
  }

  /** What step `st` records when the walk reads `c` in state `st.currentState`. */
  predicate StepFollows(a: Automaton, st: SimulationStep, c: char)
  {
    && st.inputSymbol == [c]
    && match FindTransition(a.edges, st.currentState, c)
       case Some(k) => st.nextState == a.edges[k].target && st.action == Read(c, a.edges[k].target)
       case None => st.nextState == st.currentState && st.action == NoTransition(c)
  }

  /** The state a trace ends in: the last step's `nextState`, or `start` if there is no step. */
  function FinalState(start: string, steps: seq<SimulationStep>): string
  {
    if steps == [] then start else steps[|steps| - 1].nextState
  }

  /**
   * Shape of the walk: at most one step per symbol, the first step leaves
   * `state`, each step starts where the previous one ended, and step `i`
   * reads symbol `i` along the first matching edge (or records that none exists).
   */
  lemma {:induction false} WalkShape(a: Automaton, state: string, input: string)
    ensures var r := Walk(a, state, input);
      && |r.steps| <= |input|
      && (r.steps != [] ==> r.steps[0].currentState == state)
      && (forall i :: 0 <= i < |r.steps| - 1 ==> r.steps[i].nextState == r.steps[i + 1].currentState)
      && (forall i :: 0 <= i < |r.steps| ==> StepFollows(a, r.steps[i], input[i]))
    decreases |input|
  {
    if input != [] {
      var c := input[0];
      match FindTransition(a.edges, state, c)
      case None =>
      case Some(k) =>
        var t := a.edges[k].target;
        var rest := Walk(a, t, input[1..]);
        WalkShape(a, t, input[1..]);
        var r := Walk(a, state, input);
        assert r.steps == [SimulationStep(state, [c], t, Read(c, t))] + rest.steps;
        forall i | 1 <= i < |r.steps|
          ensures StepFollows(a, r.steps[i], input[i])
        {
          assert r.steps[i] == rest.steps[i - 1];
          assert input[i] == input[1..][i - 1];
        }
        forall i | 0 <= i < |r.steps| - 1
          ensures r.steps[i].nextState == r.steps[i + 1].currentState
        {
          if i > 0 {
            assert r.steps[i] == rest.steps[i - 1] && r.steps[i + 1] == rest.steps[i];
          }
        }
    }
  }

  /** A missing transition is recorded by the last step only, and it makes the verdict false. */
  lemma {:induction false} WalkRejects(a: Automaton, state: string, input: string)
    ensures forall i :: 0 <= i < |Walk(a, state, input).steps| && Walk(a, state, input).steps[i].action.NoTransition?
                      ==> i == |Walk(a, state, input).steps| - 1 && !Walk(a, state, input).accepted
    decreases |input|
  {
    if input != [] {
      var c := input[0];
      match FindTransition(a.edges, state, c)
      case None =>
      case Some(k) =>
        var t := a.edges[k].target;
        var rest := Walk(a, t, input[1..]);
        WalkRejects(a, t, input[1..]);
        var r := Walk(a, state, input);
        assert r.steps == [SimulationStep(state, [c], t, Read(c, t))] + rest.steps;
        assert r.accepted == rest.accepted && !r.steps[0].action.NoTransition?;
        forall i | 1 <= i < |r.steps| && r.steps[i].action.NoTransition?
          ensures i == |r.steps| - 1 && !r.accepted
        {
          assert r.steps[i] == rest.steps[i - 1];
          assert 0 <= i - 1 < |rest.steps| && rest.steps[i - 1].action.NoTransition?;
          assert i - 1 == |rest.steps| - 1 && !rest.accepted;
        }
    }
  }

  /** Every recorded step read a symbol along an edge. */
  predicate AllRead(steps: seq<SimulationStep>)
  {
    forall i :: 0 <= i < |steps| ==> steps[i].action.Read?
  }

  /** Prepending a reading step neither adds nor removes a failed step, nor changes the final state. */
  lemma ReadStepCons(state: string, first: SimulationStep, rest: seq<SimulationStep>)
    requires first.action.Read?
    ensures AllRead([first] + rest) <==> AllRead(rest)
    ensures FinalState(state, [first] + rest) == FinalState(first.nextState, rest)
  {
    var r := [first] + rest;
    if AllRead(rest) {
      forall i | 0 <= i < |r|
        ensures r[i].action.Read?
      {
        if i > 0 { assert r[i] == rest[i - 1]; }
      }
    }
    if AllRead(r) {
      forall i | 0 <= i < |rest|
        ensures rest[i].action.Read?
      {
        assert rest[i] == r[i + 1];
      }
    }
  }

  /**
   * The walk accepts iff it read every symbol along an edge and ended in an
   * accept state.
   */
  lemma {:induction false} WalkAccepts(a: Automaton, state: string, input: string)
    ensures var r := Walk(a, state, input);
      r.accepted <==> |r.steps| == |input| && AllRead(r.steps) && FinalState(state, r.steps) in AcceptIds(a)
    decreases |input|
  {
    if input != [] {
      var c := input[0];
      match FindTransition(a.edges, state, c)
      case None =>
        assert !Walk(a, state, input).steps[0].action.Read?;
      case Some(k) =>
        var t := a.edges[k].target;
        var rest := Walk(a, t, input[1..]);
        WalkAccepts(a, t, input[1..]);
        var first := SimulationStep(state, [c], t, Read(c, t));
        assert Walk(a, state, input).steps == [first] + rest.steps;
        ReadStepCons(state, first, rest.steps);
    }
  }

  // =====================================================================
  // getEpsilonClosure
  // =====================================================================

  /** The targets of the epsilon edges leaving `S`. */
  function EpsilonTargets(a: Automaton, S: set<string>): set<string>
  {
    set e | e in a.edges && e.kind == Epsilon && e.source in S :: e.target
  }

  function EdgeTargets(a: Automaton): set<string>
  {
    set e | e in a.edges :: e.target
  }

  /** Adding epsilon-successors that are new brings the fixpoint iteration closer to its end. */
  lemma ClosureProgress(a: Automaton, S: set<string>)
    requires !(S + EpsilonTargets(a, S) <= S)
    ensures |EdgeTargets(a) - (S + EpsilonTargets(a, S))| < |EdgeTargets(a) - S|
  {
    var next := S + EpsilonTargets(a, S);
    var x :| x in next && x !in S;
    var e :| e in a.edges && e.kind == Epsilon && e.source in S && e.target == x;
    assert x in EdgeTargets(a);
    var smaller, larger := EdgeTargets(a) - next, EdgeTargets(a) - S;
    assert larger == smaller + (larger - smaller);
    assert x in larger - smaller;
    assert |larger - smaller| >= 1;
  }

  /** The least superset of `S` closed under epsilon edges, as a fixpoint. */
  function Closure(a: Automaton, S: set<string>): (c: set<string>)
    ensures S <= c
    ensures EpsilonTargets(a, c) <= c
    decreases |EdgeTargets(a) - S|
  {
    var next := S + EpsilonTargets(a, S);
    if next <= S then S
    else
      ClosureProgress(a, S);
      Closure(a, next)
  }

  /** Every set that contains `S` and is closed under epsilon edges contains the closure. */
  lemma {:induction false} ClosureLeast(a: Automaton, S: set<string>, T: set<string>)
    requires S <= T && EpsilonTargets(a, T) <= T
    ensures Closure(a, S) <= T
    decreases |EdgeTargets(a) - S|
  {
    var next := S + EpsilonTargets(a, S);
    if !(next <= S) {
      ClosureProgress(a, S);
      ClosureLeast(a, next, T);
    }
  }

  /** An epsilon edge from `x` to `y`. */
  predicate EpsilonEdge(a: Automaton, x: string, y: string)
  {
    exists e :: e in a.edges && e.kind == Epsilon && e.source == x && e.target == y
  }

  /** A walk along epsilon edges only. */
  predicate EpsilonPath(a: Automaton, p: seq<string>)
  {
    |p| >= 1 && forall i :: 0 <= i < |p| - 1 ==> EpsilonEdge(a, p[i], p[i + 1])
  }

  /** `y` is reached from some state of `S` along epsilon edges only. */
  ghost predicate EpsilonReachable(a: Automaton, S: set<string>, y: string)
  {
    exists p :: EpsilonPath(a, p) && p[0] in S && p[|p| - 1] == y
  }

  lemma {:induction false} ClosureOnlyReachable(a: Automaton, S: set<string>, y: string)
    requires y in Closure(a, S)
    ensures EpsilonReachable(a, S, y)
    decreases |EdgeTargets(a) - S|
  {
    var next := S + EpsilonTargets(a, S);
    if next <= S {
      assert EpsilonPath(a, [y]);
    } else {
      ClosureProgress(a, S);
      ClosureOnlyReachable(a, next, y);
      var p :| EpsilonPath(a, p) && p[0] in next && p[|p| - 1] == y;
      if p[0] !in S {
        var e :| e in a.edges && e.kind == Epsilon && e.source in S && e.target == p[0];
        var q := [e.source] + p;
        assert EpsilonEdge(a, q[0], q[1]);
        forall i | 1 <= i < |q| - 1
          ensures EpsilonEdge(a, q[i], q[i + 1])
        {
          assert q[i] == p[i - 1] && q[i + 1] == p[i];
        }
        assert EpsilonPath(a, q) && q[0] in S && q[|q| - 1] == y;
      }
    }
  }

  lemma {:induction false} PathStaysInClosed(a: Automaton, C: set<string>, p: seq<string>, n: nat)
    requires EpsilonTargets(a, C) <= C
    requires EpsilonPath(a, p) && p[0] in C && n < |p|
    ensures p[n] in C
  {
    if n > 0 {
      PathStaysInClosed(a, C, p, n - 1);
      assert EpsilonEdge(a, p[n - 1], p[n]);
      var e :| e in a.edges && e.kind == Epsilon && e.source == p[n - 1] && e.target == p[n];
      assert p[n] in EpsilonTargets(a, C);
    }
  }

  /** The closure holds exactly the states epsilon-reachable from `S`. */
  lemma ClosureIsReachability(a: Automaton, S: set<string>, y: string)
    ensures y in Closure(a, S) <==> EpsilonReachable(a, S, y)
  {
    if y in Closure(a, S) {
      ClosureOnlyReachable(a, S, y);
    }
    if EpsilonReachable(a, S, y) {
      var p :| EpsilonPath(a, p) && p[0] in S && p[|p| - 1] == y;
      PathStaysInClosed(a, Closure(a, S), p, |p| - 1);
    }
  }

  lemma EpsilonTargetsMono(a: Automaton, S: set<string>, T: set<string>)
    requires S <= T
    ensures EpsilonTargets(a, S) <= EpsilonTargets(a, T)
  {
  }

  /** The targets of the epsilon edges leaving `state`, in edge order: the `filter` in `getEpsilonClosure`. */
  function EpsilonTargetList(edges: seq<Edge>, state: string): seq<string>
  {
    if edges == [] then []
    else
      var e := edges[|edges| - 1];
      EpsilonTargetList(edges[..|edges| - 1], state) + (if e.source == state && e.kind == Epsilon then [e.target] else [])
  }

  lemma {:induction false} EpsilonTargetListMembers(edges: seq<Edge>, state: string)
    ensures Members(EpsilonTargetList(edges, state))
         == set e | e in edges && e.kind == Epsilon && e.source == state :: e.target
  {
    if edges != [] {
      var pre, e := edges[..|edges| - 1], edges[|edges| - 1];
      var tail := if e.source == state && e.kind == Epsilon then [e.target] else [];
      EpsilonTargetListMembers(pre, state);
      MembersConcat(EpsilonTargetList(pre, state), tail);
      assert edges == pre + [e];
      forall y | y in set x | x in edges && x.kind == Epsilon && x.source == state :: x.target
        ensures y in Members(EpsilonTargetList(pre, state)) + Members(tail)
      {
        var x :| x in edges && x.kind == Epsilon && x.source == state && x.target == y;
        if x != e { assert x in pre; }
      }
    }
  }

  /** A duplicate-free list that grew only by elements of `T` leaves fewer elements of `T` outside it. */
  lemma GrowthProgress(T: set<string>, closure: seq<string>, closure': seq<string>)
    requires NoDups(closure') && |closure| <= |closure'| && closure'[..|closure|] == closure
    requires Members(closure') <= Members(closure) + T
    ensures closure' == closure || |T - Members(closure')| < |T - Members(closure)|
  {
    if |closure'| > |closure| {
      var y := closure'[|closure|];
      assert y !in Members(closure) by {
        forall i | 0 <= i < |closure| ensures closure[i] != y { assert closure[i] == closure'[i]; }
      }
      assert y in Members(closure');
      assert Members(closure) <= Members(closure') by { assert closure' == closure + closure'[|closure|..]; }
      var small, large := T - Members(closure'), T - Members(closure);
      assert large == small + (large - small);
      assert y in large - small;
    } else {
      assert closure' == closure'[..|closure|];
    }
  }

  /**
   * Adding the epsilon successors of `state` to a duplicate-free closure
   * list, as `Set.add` does: the old list stays a prefix, the new states are
   * exactly the successors not yet present, and either the list grew by a
   * state that is some edge's target or it is unchanged.
   */
  lemma PushFacts(a: Automaton, state: string, closure: seq<string>)
    requires NoDups(closure)
    ensures var closure' := AddAll(closure, EpsilonTargetList(a.edges, state));
      && NoDups(closure') && |closure| <= |closure'| && closure'[..|closure|] == closure
      && Members(closure') == Members(closure) + EpsilonTargets(a, {state})
      && (closure' == closure || |EdgeTargets(a) - Members(closure')| < |EdgeTargets(a) - Members(closure)|)
  {
    var ts := EpsilonTargetList(a.edges, state);
    var closure' := AddAll(closure, ts);
    AddAllFacts(closure, ts);
    EpsilonTargetListMembers(a.edges, state);
    assert EpsilonTargets(a, {state}) <= EdgeTargets(a);
    GrowthProgress(EdgeTargets(a), closure, closure');
  }

  /** The states a push appends to the stack are new to the closure, so the stack stays duplicate-free. */
  lemma PushedNoDups(rest: seq<string>, closure: seq<string>, closure': seq<string>)
    requires NoDups(rest) && NoDups(closure') && Members(rest) <= Members(closure)
    requires |closure| <= |closure'| && closure'[..|closure|] == closure
    ensures NoDups(rest + closure'[|closure|..])
    ensures Members(rest + closure'[|closure|..]) <= Members(closure')
  {
    var added := closure'[|closure|..];
    assert closure' == closure + added;
    MembersConcat(rest, added);
    MembersConcat(closure, added);
    forall i, j | 0 <= i < j < |rest + added| ensures (rest + added)[i] != (rest + added)[j] {
      if j >= |rest| {
        if i >= |rest| {
          assert added[i - |rest|] == closure'[|closure| + i - |rest|];
          assert added[j - |rest|] == closure'[|closure| + j - |rest|];
        } else {
          assert rest[i] in Members(rest);
          var k :| 0 <= k < |closure| && closure[k] == rest[i];
          assert closure'[k] == rest[i];
          assert added[j - |rest|] == closure'[|closure| + j - |rest|];
        }
      }
    }
  }

  /** What one push leaves: both lists extended by the new successors, duplicate-free, the stack inside the closure. */
  lemma PushDone(a: Automaton, state: string, closure: seq<string>, stack: seq<string>)
    requires NoDups(closure) && NoDups(stack) && Members(stack) <= Members(closure)
    ensures var closure' := AddAll(closure, EpsilonTargetList(a.edges, state));
      && |closure| <= |closure'| && closure'[..|closure|] == closure
      && NoDups(closure') && Members(closure') == Members(closure) + EpsilonTargets(a, {state})
      && NoDups(stack + closure'[|closure|..]) && Members(stack + closure'[|closure|..]) <= Members(closure')
  {
    PushFacts(a, state, closure);
    PushedNoDups(stack, closure, AddAll(closure, EpsilonTargetList(a.edges, state)));
  }

  /**
   * The `filter` of the epsilon edges leaving `state`, then the `forEach`
   * over them: each target not yet in the closure is added to it and pushed
   * on the stack.
   */
  method PushEpsilonTargets(a: Automaton, state: string, closure: seq<string>, stack: seq<string>)
    returns (closure': seq<string>, stack': seq<string>)
    requires NoDups(closure) && NoDups(stack) && Members(stack) <= Members(closure)
    ensures closure' == AddAll(closure, EpsilonTargetList(a.edges, state))
    ensures |closure| <= |closure'| && closure'[..|closure|] == closure
    ensures stack' == stack + closure'[|closure|..]
    ensures NoDups(closure') && NoDups(stack') && Members(stack') <= Members(closure')
    ensures Members(closure') == Members(closure) + EpsilonTargets(a, {state})
  {
    var targets := EpsilonTargetList(a.edges, state);
    closure', stack' := closure, stack;
    ghost var added: seq<string> := [];
    for k := 0 to |targets|
      invariant closure' == AddAll(closure, targets[..k])
      invariant closure' == closure + added && stack' == stack + added
    {
      var target := targets[k];
      assert targets[..k + 1][..k] == targets[..k];
      if target !in closure' {
        closure' := closure' + [target];
        stack' := stack' + [target];
        added := added + [target];
      }
    }
    assert targets[..|targets|] == targets;
    assert closure'[|closure|..] == added;
    PushDone(a, state, closure, stack);
  }

  /**
   * The closure list `getEpsilonClosure` builds, in `Set` insertion order:
   * pop the last state of the stack, add its epsilon successors in edge
   * order, and push the ones that were new.
   */
  function ClosureOrder(a: Automaton, closure: seq<string>, stack: seq<string>): seq<string>
    requires NoDups(closure)
    decreases |EdgeTargets(a) - Members(closure)|, |stack|
  {
    if stack == [] then closure
    else
      var closure' := AddAll(closure, EpsilonTargetList(a.edges, stack[|stack| - 1]));
      PushFacts(a, stack[|stack| - 1], closure);
      ClosureOrder(a, closure', stack[..|stack| - 1] + closure'[|closure|..])
  }

  /** What the work-list loop of `getEpsilonClosure` keeps: every state off the stack has its epsilon-successors in the closure. */
  ghost predicate ClosureLoopInv(a: Automaton, S: set<string>, full: set<string>, closure: seq<string>, stack: seq<string>)
  {
    && NoDups(closure) && NoDups(stack)
    && S <= Members(closure) <= full
    && Members(stack) <= Members(closure)
    && forall x :: x in closure && x !in stack ==> EpsilonTargets(a, {x}) <= Members(closure)
  }

  lemma ClosureLoopKeeps(a: Automaton, S: set<string>, full: set<string>, before: seq<string>, pending: seq<string>,
                         state: string, rest: seq<string>, closure: seq<string>, stack: seq<string>)
    requires full == Closure(a, S) && ClosureLoopInv(a, S, full, before, pending)
    requires pending == rest + [state]
    requires NoDups(closure) && NoDups(stack)
    requires |before| <= |closure| && closure[..|before|] == before
    requires stack == rest + closure[|before|..]
    requires Members(closure) == Members(before) + EpsilonTargets(a, {state})
    ensures ClosureLoopInv(a, S, full, closure, stack)
  {
    assert state in Members(before);
    EpsilonTargetsMono(a, {state}, full);
    assert Members(rest) <= Members(pending);
    assert closure == before + closure[|before|..];
    forall x | x in closure && x !in stack
      ensures EpsilonTargets(a, {x}) <= Members(closure)
    {
      assert x in before;
    }
  }

  /** With the stack empty, the closure list is closed under epsilon edges, so it is the whole closure. */
  lemma ClosureLoopDone(a: Automaton, S: set<string>, full: set<string>, closure: seq<string>)
    requires full == Closure(a, S) && ClosureLoopInv(a, S, full, closure, [])
    ensures Members(closure) == full
  {
    var C := Members(closure);
    forall y | y in EpsilonTargets(a, C)
      ensures y in C
    {
      var e :| e in a.edges && e.kind == Epsilon && e.source in C && e.target == y;
      assert y in EpsilonTargets(a, {e.source});
    }
    ClosureLeast(a, S, C);
  }


  /**
   * One round of the loop: popping the last state and pushing its new
   * successors keeps the invariant and the list the loop ends with, and
   * either leaves fewer edge targets outside the closure or shrinks the stack.
   */
  lemma ClosureStep(a: Automaton, S: set<string>, full: set<string>, closure: seq<string>, stack: seq<string>)
    requires full == Closure(a, S) && ClosureLoopInv(a, S, full, closure, stack) && stack != []
    ensures var closure' := AddAll(closure, EpsilonTargetList(a.edges, stack[|stack| - 1]));
      && |closure| <= |closure'| && closure'[..|closure|] == closure
      && (var stack' := stack[..|stack| - 1] + closure'[|closure|..];
          && ClosureLoopInv(a, S, full, closure', stack')
          && ClosureOrder(a, closure, stack) == ClosureOrder(a, closure', stack')
          && var m, m' := |EdgeTargets(a) - Members(closure)|, |EdgeTargets(a) - Members(closure')|;
             m' < m || (m' == m && |stack'| < |stack|))
  {
    var state, rest := stack[|stack| - 1], stack[..|stack| - 1];
    assert stack == rest + [state];
    var closure' := AddAll(closure, EpsilonTargetList(a.edges, state));
    PushFacts(a, state, closure);
    assert Members(rest) <= Members(stack);
    PushedNoDups(rest, closure, closure');
    var stack' := rest + closure'[|closure|..];
    ClosureLoopKeeps(a, S, full, closure, stack, state, rest, closure', stack');
  }

  /** From any state of the loop, the list the loop ends with is duplicate-free, extends the current one and holds exactly the closure. */
  lemma {:induction false} ClosureOrderSpec(a: Automaton, S: set<string>, full: set<string>, closure: seq<string>, stack: seq<string>)
    requires full == Closure(a, S) && ClosureLoopInv(a, S, full, closure, stack)
    ensures var r := ClosureOrder(a, closure, stack); NoDups(r) && closure <= r && Members(r) == full
    decreases |EdgeTargets(a) - Members(closure)|, |stack|
  {
    if stack == [] {
      ClosureLoopDone(a, S, full, closure);
    } else {
      var closure' := AddAll(closure, EpsilonTargetList(a.edges, stack[|stack| - 1]));
      ClosureStep(a, S, full, closure, stack);
      var stack' := stack[..|stack| - 1] + closure'[|closure|..];
      ClosureOrderSpec(a, S, full, closure', stack');
    }
  }

  /** The list built from a duplicate-free input is duplicate-free, starts with the input, and holds exactly its epsilon closure. */
  lemma ClosureOrderIsClosure(a: Automaton, states: seq<string>)
    requires NoDups(states)
    ensures var r := ClosureOrder(a, states, states);
      NoDups(r) && states <= r && Members(r) == Closure(a, Members(states))
  {
    ClosureOrderSpec(a, Members(states), Closure(a, Members(states)), states, states);
  }

  /**
   * `getEpsilonClosure`: pop a state off the stack, and push every
   * epsilon-successor not yet in the closure. The closure keeps the
   * insertion order of a JavaScript `Set`, the input states first.
   */
  method GetEpsilonClosure(a: Automaton, states: seq<string>) returns (closure: seq<string>)
    requires NoDups(states)
    ensures closure == ClosureOrder(a, states, states)
    ensures NoDups(closure) && states <= closure
    ensures Members(closure) == Closure(a, Members(states))
  {
    closure := states;
    var stack := states;
    while |stack| > 0
      invariant NoDups(closure) && NoDups(stack) && Members(stack) <= Members(closure)
      invariant ClosureOrder(a, closure, stack) == ClosureOrder(a, states, states)
      decreases |EdgeTargets(a) - Members(closure)|, |stack|
    {
      var state := stack[|stack| - 1];
      var rest := stack[..|stack| - 1];
      assert Members(rest) <= Members(stack) by { assert stack == rest + [state]; }
      PushFacts(a, state, closure);
      closure, stack := PushEpsilonTargets(a, state, closure, rest);
    }
    ClosureOrderIsClosure(a, states);
  }

  // =====================================================================
  // simulateAutomatonAdvanced: a set of current states
  // =====================================================================

  /** The targets of the non-epsilon edges labelled exactly `[c]` leaving `S`. */
  function Move(a: Automaton, S: set<string>, c: char): set<string>
  {
    set e | e in a.edges && e.source in S && e.symbol == [c] && e.kind != Epsilon :: e.target
  }

  /** One step of the set-based simulation; `after` is None when no state was reached. */
  datatype SetStep = SetStep(before: set<string>, symbol: char, after: Option<set<string>>)

  datatype SetTrace = SetTrace(steps: seq<SetStep>, accepted: bool)

  /** The set-based run from the configuration `current` over `input`. */
  function AdvanceFrom(a: Automaton, current: set<string>, input: string): SetTrace
    decreases |input|
  {
    if input == [] then SetTrace([], current * AcceptIds(a) != {})
    else
      var next := Move(a, current, input[0]);
      if next == {} then SetTrace([SetStep(current, input[0], None)], false)
      else
        var closed := Closure(a, next);
        var rest := AdvanceFrom(a, closed, input[1..]);
        SetTrace([SetStep(current, input[0], Some(closed))] + rest.steps, rest.accepted)
  }

  /** The specification of `simulateAutomatonAdvanced`, on sets of states. */
  function Advanced(a: Automaton, input: string): SetTrace
  {
    match StartId(a)
    case None => SetTrace([], false)
    case Some(s) => AdvanceFrom(a, Closure(a, {s}), input)
  }

  /** What the set-based step `st` records when the configuration `st.before` reads `c`. */
  predicate SetStepFollows(a: Automaton, st: SetStep, c: char)
  {
    && st.symbol == c
    && (Move(a, st.before, c) == {} ==> st.after == None)
    && (Move(a, st.before, c) != {} ==> st.after == Some(Closure(a, Move(a, st.before, c))))
  }

  /** The configuration a set-based trace ends in: the last step's `after`, or `current` if there is no step. */
  function FinalConfig(current: set<string>, steps: seq<SetStep>): set<string>
  {
    if steps == [] then current
    else match steps[|steps| - 1].after
      case None => {}
      case Some(c) => c
  }

  /**
   * Shape of the set-based run: at most one step per symbol, the first step
   * starts from `current`, each step starts from the configuration the
   * previous one reached, and step `i` moves on symbol `i` along
   * non-epsilon edges and then closes under epsilon edges.
   */
  lemma {:induction false} AdvanceShape(a: Automaton, current: set<string>, input: string)
    ensures var r := AdvanceFrom(a, current, input);
      && |r.steps| <= |input|
      && (r.steps != [] ==> r.steps[0].before == current)
      && (forall i :: 0 <= i < |r.steps| - 1 ==> r.steps[i].after == Some(r.steps[i + 1].before))
      && (forall i :: 0 <= i < |r.steps| ==> SetStepFollows(a, r.steps[i], input[i]))
    decreases |input|
  {
    if input != [] {
      var next := Move(a, current, input[0]);
      if next != {} {
        var closed := Closure(a, next);
        var rest := AdvanceFrom(a, closed, input[1..]);
        AdvanceShape(a, closed, input[1..]);
        var r := AdvanceFrom(a, current, input);
        assert r.steps == [SetStep(current, input[0], Some(closed))] + rest.steps;
        forall i | 1 <= i < |r.steps|
          ensures SetStepFollows(a, r.steps[i], input[i])
        {
          assert r.steps[i] == rest.steps[i - 1];
          assert input[i] == input[1..][i - 1];
        }
        forall i | 0 <= i < |r.steps| - 1
          ensures r.steps[i].after == Some(r.steps[i + 1].before)
        {
          if i > 0 {
            assert r.steps[i] == rest.steps[i - 1] && r.steps[i + 1] == rest.steps[i];
          }
        }
      }
    }
  }

  /** The set-based run rejects at the first symbol no edge reads: that step is the last one and the verdict is false. */
  lemma {:induction false} AdvanceRejects(a: Automaton, current: set<string>, input: string)
    ensures forall i :: 0 <= i < |AdvanceFrom(a, current, input).steps| && AdvanceFrom(a, current, input).steps[i].after.None?
                      ==> i == |AdvanceFrom(a, current, input).steps| - 1 && !AdvanceFrom(a, current, input).accepted
    decreases |input|
  {
    if input != [] {
      var next := Move(a, current, input[0]);
      if next != {} {
        var closed := Closure(a, next);
        var rest := AdvanceFrom(a, closed, input[1..]);
        AdvanceRejects(a, closed, input[1..]);
        var r := AdvanceFrom(a, current, input);
        assert r.steps == [SetStep(current, input[0], Some(closed))] + rest.steps;
        assert r.accepted == rest.accepted;
        forall i | 1 <= i < |r.steps| && r.steps[i].after.None?
          ensures i == |r.steps| - 1 && !r.accepted
        {
          assert r.steps[i] == rest.steps[i - 1];
        }
      }
    }
  }

  /** The set-based run accepts iff it read the whole input and its final configuration meets the accept states. */
  lemma {:induction false} AdvanceAccepts(a: Automaton, current: set<string>, input: string)
    ensures AdvanceFrom(a, current, input).accepted <==>
      && |AdvanceFrom(a, current, input).steps| == |input|
      && FinalConfig(current, AdvanceFrom(a, current, input).steps) * AcceptIds(a) != {}
    decreases |input|
  {
    if input != [] {
      var next := Move(a, current, input[0]);
      if next != {} {
        var closed := Closure(a, next);
        var rest := AdvanceFrom(a, closed, input[1..]);
        AdvanceAccepts(a, closed, input[1..]);
        var r := AdvanceFrom(a, current, input);
        assert r.steps == [SetStep(current, input[0], Some(closed))] + rest.steps;
        assert FinalConfig(current, r.steps) == FinalConfig(closed, rest.steps);
      }
    }
  }

  /** Without any input the run accepts iff the closure of the start state holds an accept state. */
  lemma AdvancedEmptyInput(a: Automaton)
    ensures Advanced(a, []).steps == []
    ensures Advanced(a, []).accepted <==>
      exists s :: StartId(a) == Some(s) && Closure(a, {s}) * AcceptIds(a) != {}
  {
  }

  /** A step as the method builds it: the configurations as insertion-ordered lists. */
  datatype ConfigStep = ConfigStep(current: seq<string>, symbol: char, next: Option<seq<string>>)
  {
    function Abstract(): SetStep
    {
      SetStep(Members(current), symbol, match next case None => None case Some(n) => Some(Members(n)))
    }

    /** The step as the source records it: states joined by commas, `'reject'` when none. */
    function Rendered(): SimulationStep
    {
      match next
      case None => SimulationStep(Join(current, ","), [symbol], "reject", NoValidTransitions(symbol))
      case Some(n) => SimulationStep(Join(current, ","), [symbol], Join(n, ","), Process(symbol))
    }
  }

  function AbstractSteps(steps: seq<ConfigStep>): (r: seq<SetStep>)
    ensures |r| == |steps| && forall i :: 0 <= i < |steps| ==> r[i] == steps[i].Abstract()
  {
    if steps == [] then [] else [steps[0].Abstract()] + AbstractSteps(steps[1..])
  }

  datatype ConfigTrace = ConfigTrace(steps: seq<ConfigStep>, accepted: bool)
  {
    function Abstract(): SetTrace
    {
      SetTrace(AbstractSteps(steps), accepted)
    }

    /** The `SimulationResult` the source returns for this trace. */
    function Rendered(): SimulationResult
    {
      SimulationResult(seq(|steps|, i requires 0 <= i < |steps| => steps[i].Rendered()), accepted)
    }
  }

  /** The targets of the non-epsilon edges leaving `state` labelled exactly `[c]`, in edge order. */
  function LabelledTargetList(edges: seq<Edge>, state: string, c: char): seq<string>
  {
    if edges == [] then []
    else
      var e := edges[|edges| - 1];
      LabelledTargetList(edges[..|edges| - 1], state, c)
        + (if e.source == state && e.symbol == [c] && e.kind != Epsilon then [e.target] else [])
  }

  lemma {:induction false} LabelledTargetListMembers(edges: seq<Edge>, state: string, c: char)
    ensures Members(LabelledTargetList(edges, state, c))
         == set e | e in edges && e.source == state && e.symbol == [c] && e.kind != Epsilon :: e.target
  {
    if edges != [] {
      var pre, e := edges[..|edges| - 1], edges[|edges| - 1];
      var tail := if e.source == state && e.symbol == [c] && e.kind != Epsilon then [e.target] else [];
      LabelledTargetListMembers(pre, state, c);
      MembersConcat(LabelledTargetList(pre, state, c), tail);
      assert edges == pre + [e];
      forall y | y in set x | x in edges && x.source == state && x.symbol == [c] && x.kind != Epsilon :: x.target
        ensures y in Members(LabelledTargetList(pre, state, c)) + Members(tail)
      {
        var x :| x in edges && x.source == state && x.symbol == [c] && x.kind != Epsilon && x.target == y;
        if x != e { assert x in pre; }
      }
    }
  }

  /** The targets added to `nextStates`, state by state in configuration order, each state's edges in edge order. */
  function MoveTargetList(edges: seq<Edge>, current: seq<string>, c: char): seq<string>
  {
    if current == [] then []
    else MoveTargetList(edges, current[..|current| - 1], c) + LabelledTargetList(edges, current[|current| - 1], c)
  }

  lemma {:induction false} MoveTargetListMembers(a: Automaton, current: seq<string>, c: char)
    ensures Members(MoveTargetList(a.edges, current, c)) == Move(a, Members(current), c)
  {
    if current != [] {
      var pre, s := current[..|current| - 1], current[|current| - 1];
      MoveTargetListMembers(a, pre, c);
      LabelledTargetListMembers(a.edges, s, c);
      assert current == pre + [s];
      MembersConcat(MoveTargetList(a.edges, pre, c), LabelledTargetList(a.edges, s, c));
      MembersAppend(pre, s);
      forall y | y in Move(a, Members(current), c)
        ensures y in Move(a, Members(pre), c) + Move(a, {s}, c)
      {
        var e :| e in a.edges && e.source in Members(current) && e.symbol == [c] && e.kind != Epsilon && e.target == y;
        if e.source != s { assert e.source in Members(pre); }
      }
    }
  }

  /** One symbol on lists: the move in `Set` insertion order, then its closure list; None when the move is empty. */
  function NextList(a: Automaton, current: seq<string>, c: char): Option<seq<string>>
  {
    var moved := AddAll([], MoveTargetList(a.edges, current, c));
    AddAllFacts([], MoveTargetList(a.edges, current, c));
    if moved == [] then None else Some(ClosureOrder(a, moved, moved))
  }

  /** The run from the configuration list `current` over `input`, with every list in the order the source builds it. */
  function AdvanceListFrom(a: Automaton, current: seq<string>, input: string): ConfigTrace
    decreases |input|
  {
    if input == [] then ConfigTrace([], exists s :: s in current && s in AcceptIds(a))
    else match NextList(a, current, input[0])
      case None => ConfigTrace([ConfigStep(current, input[0], None)], false)
      case Some(next) =>
        var rest := AdvanceListFrom(a, next, input[1..]);
        ConfigTrace([ConfigStep(current, input[0], Some(next))] + rest.steps, rest.accepted)
  }

  /** The ordered specification of `simulateAutomatonAdvanced`. */
  function AdvancedList(a: Automaton, input: string): ConfigTrace
  {
    match StartId(a)
    case None => ConfigTrace([], false)
    case Some(s) => AdvanceListFrom(a, ClosureOrder(a, [s], [s]), input)
  }

  /** The ordered run from symbol `i` on: the step for `input[i]` followed by the run from its result, or that step alone when it rejects. */
  lemma AdvanceListStep(a: Automaton, current: seq<string>, input: string, i: nat, next: Option<seq<string>>)
    requires i < |input| && next == NextList(a, current, input[i])
    ensures var r := AdvanceListFrom(a, current, input[i..]);
      var step := ConfigStep(current, input[i], next);
      && (next.None? ==> r == ConfigTrace([step], false))
      && (next.Some? ==> var rest := AdvanceListFrom(a, next.value, input[i + 1..]);
            r == ConfigTrace([step] + rest.steps, rest.accepted))
  {
    assert input[i..][1..] == input[i + 1..];
  }

  /** One symbol on lists, read as sets: None exactly when the move is empty, otherwise the closure of the move, listed once each. */
  lemma NextListFacts(a: Automaton, current: seq<string>, c: char)
    ensures NextList(a, current, c).None? <==> Move(a, Members(current), c) == {}
    ensures NextList(a, current, c).Some? ==> var next := NextList(a, current, c).value;
      NoDups(next) && Members(next) == Closure(a, Move(a, Members(current), c))
  {
    var moved := AddAll([], MoveTargetList(a.edges, current, c));
    AddAllFacts([], MoveTargetList(a.edges, current, c));
    MoveTargetListMembers(a, current, c);
    assert Members(moved) == Move(a, Members(current), c);
    if moved != [] {
      assert moved[0] in Members(moved);
      ClosureOrderIsClosure(a, moved);
    }
  }

  /** At the end of the input, the list accepts exactly when its set meets the accepting states. */
  lemma AcceptsListed(a: Automaton, current: seq<string>)
    ensures (exists s :: s in current && s in AcceptIds(a)) <==> Members(current) * AcceptIds(a) != {}
  {
    if s :| s in current && s in AcceptIds(a) {
      assert s in Members(current) * AcceptIds(a);
    }
    if s :| s in Members(current) * AcceptIds(a) {
      assert s in current;
    }
  }

  /** Read as sets, the ordered run is the set-based run, and every configuration it reports lists each state once. */
  lemma {:induction false} AdvanceListAbstract(a: Automaton, current: seq<string>, input: string)
    requires NoDups(current)
    ensures AdvanceListFrom(a, current, input).Abstract() == AdvanceFrom(a, Members(current), input)
    ensures var r := AdvanceListFrom(a, current, input);
      forall i :: 0 <= i < |r.steps| ==> NoDups(r.steps[i].current)
    decreases |input|
  {
    if input == [] {
      AcceptsListed(a, current);
    } else {
      var c := input[0];
      NextListFacts(a, current, c);
      if next :| NextList(a, current, c) == Some(next) {
        var r := AdvanceListFrom(a, current, input);
        AdvanceListAbstract(a, next, input[1..]);
        var rest := AdvanceListFrom(a, next, input[1..]);
        var step := ConfigStep(current, c, Some(next));
        assert r.steps == [step] + rest.steps;
        assert AbstractSteps(r.steps) == [step.Abstract()] + AbstractSteps(rest.steps);
        forall i | 0 <= i < |r.steps| ensures NoDups(r.steps[i].current) {
          if i > 0 { assert r.steps[i] == rest.steps[i - 1]; }
        }
      }
    }
  }

  /** The ordered trace, read as sets, is `Advanced`, and each reported configuration is duplicate-free. */
  lemma AdvancedListIsAdvanced(a: Automaton, input: string)
    ensures AdvancedList(a, input).Abstract() == Advanced(a, input)
    ensures var r := AdvancedList(a, input);
      forall i :: 0 <= i < |r.steps| ==> NoDups(r.steps[i].current)
  {
    if s :| StartId(a) == Some(s) {
      ClosureOrderIsClosure(a, [s]);
      assert Members([s]) == {s};
      AdvanceListAbstract(a, ClosureOrder(a, [s], [s]), input);
    }
  }

  /** The `filter` of the labelled edges leaving `state`, then the `forEach` adding each target to `next` unless already there. */
  method AddLabelledTargets(a: Automaton, state: string, symbol: char, next: seq<string>)
    returns (next': seq<string>)
    requires NoDups(next)
    ensures next' == AddAll(next, LabelledTargetList(a.edges, state, symbol))
    ensures NoDups(next') && next <= next'
    ensures Members(next') == Members(next) + Move(a, {state}, symbol)
  {
    var transitions := LabelledTargetList(a.edges, state, symbol);
    next' := next;
    for k := 0 to |transitions|
      invariant next' == AddAll(next, transitions[..k])
    {
      var target := transitions[k];
      assert transitions[..k + 1][..k] == transitions[..k];
      if target !in next' {
        next' := next' + [target];
      }
    }
    assert transitions[..|transitions|] == transitions;
    AddAllFacts(next, transitions);
    LabelledTargetListMembers(a.edges, state, symbol);
  }

  /** The states reached from `current` by one edge labelled exactly `symbol`, in insertion order. */
  method MoveStates(a: Automaton, current: seq<string>, symbol: char) returns (next: seq<string>)
    ensures next == AddAll([], MoveTargetList(a.edges, current, symbol))
    ensures NoDups(next)
    ensures Members(next) == Move(a, Members(current), symbol)
  {
    next := [];
    for j := 0 to |current|
      invariant next == AddAll([], MoveTargetList(a.edges, current[..j], symbol))
    {
      var state := current[j];
      assert current[..j + 1][..j] == current[..j];
      ghost var ms := MoveTargetList(a.edges, current[..j], symbol);
      AddAllFacts([], ms);
      next := AddLabelledTargets(a, state, symbol, next);
      AddAllAppend([], ms, LabelledTargetList(a.edges, state, symbol));
    }
    assert current[..|current|] == current;
    AddAllFacts([], MoveTargetList(a.edges, current, symbol));
    MoveTargetListMembers(a, current, symbol);
  }

  /**
   * One symbol of `simulateAutomatonAdvanced`: the states reached by edges
   * labelled `symbol`, closed under epsilon edges; `None` when none is reached.
   */
  method NextConfig(a: Automaton, current: seq<string>, symbol: char) returns (next: Option<seq<string>>)
    ensures next == NextList(a, current, symbol)
    ensures next.None? <==> Move(a, Members(current), symbol) == {}
    ensures next.Some? ==> NoDups(next.value)
    ensures next.Some? ==> Members(next.value) == Closure(a, Move(a, Members(current), symbol))
  {
    var nextStates := MoveStates(a, current, symbol);
    if |nextStates| == 0 {
      return None;
    }
    assert nextStates[0] in Members(nextStates);
    var nextStatesWithEpsilon := GetEpsilonClosure(a, nextStates);
    return Some(nextStatesWithEpsilon);
  }

  /**
   * `simulateAutomatonAdvanced`: the configuration starts as the closure of the
   * start state, each symbol moves along matching non-epsilon edges and closes
   * again, and an empty move rejects. The result is the ordered trace
   * `AdvancedList`, rendered as the source renders it.
   */
  method SimulateAutomatonAdvanced(a: Automaton, inputString: string) returns (r: SimulationResult)
    ensures r == AdvancedList(a, inputString).Rendered()
    ensures StartId(a).None? ==> r.steps == [] && !r.accepted
  {
    var start := FindStart(a.nodes);
    if start.None? {
      return SimulationResult([], false);
    }
    var acceptStates := AcceptIds(a);
    var currentStates := [a.nodes[start.value].id];
    currentStates := GetEpsilonClosure(a, currentStates);
    ghost var spec := AdvancedList(a, inputString);
    var steps: seq<ConfigStep> := [];
    assert inputString[0..] == inputString;
    for i := 0 to |inputString|
      invariant var rest := AdvanceListFrom(a, currentStates, inputString[i..]);
        steps + rest.steps == spec.steps && rest.accepted == spec.accepted
    {
      var symbol := inputString[i];
      var next := NextConfig(a, currentStates, symbol);
      AdvanceListStep(a, currentStates, inputString, i, next);
      steps := steps + [ConfigStep(currentStates, symbol, next)];
      if next.None? {
        assert ConfigTrace(steps, false) == spec;
        return ConfigTrace(steps, false).Rendered();
      }
      currentStates := next.value;
    }
    assert inputString[|inputString|..] == [];
    var accepted := exists s :: s in currentStates && s in acceptStates;
    assert ConfigTrace(steps, accepted) == spec;
    return ConfigTrace(steps, accepted).Rendered();
  }
}
