/**
 * The automaton builders: `ParseRegexToNFA` recognises six literal patterns
 * with hard-coded shapes, builds a four-state diagram for any other pattern
 * holding `|`, and otherwise a chain reading the pattern's characters one by
 * one. `ConvertNFAToDFA` and `MinimizeDFA` build fixed three- and two-state
 * diagrams whose edges carry the distinct labels of their input.
 *
 * Each builder is a method over a `StateAllocator` (the `stateCounter`
 * closure) proved equal to a specification function; the lemmas state the
 * shape every result has.
 */
module RegexParser {
  import opened Wrappers
  import opened Text
  import opened Automata
  import Simulator

  /** The counter behind `createState`: each call names the next state `q<n>`. */
  class StateAllocator {
    var next: nat

    constructor ()
      ensures next == 0
    {
      next := 0;
    }

    /** `createState(type)`: id and label are both `q<next>`, then the counter moves on. */
    method Create(kind: NodeType) returns (n: Node)
      modifies this
      ensures next == old(next) + 1
      ensures n == Node(StateName(old(next)), StateName(old(next)), kind)
    {
      n := Node(StateName(next), StateName(next), kind);
      next := next + 1;
    }
  }

  /** The `i`-th allocated state. */
  function State(i: nat, kind: NodeType): Node
  {
    Node(StateName(i), StateName(i), kind)
  }

  function EpsilonEdge(id: string, source: string, target: string): Edge
  {
    Edge(id, source, target, EpsilonLabel, Epsilon)
  }

  function SymbolEdge(id: string, source: string, target: string, symbol: string): Edge
  {
    Edge(id, source, target, symbol, Labelled)
  }

  // =====================================================================
  // parseRegexToNFA
  // =====================================================================

  /** The hard-coded diagrams of the six recognised patterns. */
  function FixedNfa(regex: string): Option<Automaton>
  {
    var q0, q1, q2, q3 := StateName(0), StateName(1), StateName(2), StateName(3);
    if regex == "a*" then
      Some(Automaton([State(0, Start), State(1, Accept)],
        [EpsilonEdge("e1", q0, q1), SymbolEdge("e2", q0, q0, "a")]))
    else if regex == "a+" then
      Some(Automaton([State(0, Start), State(1, Plain), State(2, Accept)],
        [SymbolEdge("e1", q0, q1, "a"), EpsilonEdge("e2", q1, q2), SymbolEdge("e3", q1, q1, "a")]))
    else if regex == "(a|b)*" then
      Some(Automaton([State(0, Start), State(1, Plain), State(2, Accept)],
        [EpsilonEdge("e1", q0, q1), EpsilonEdge("e2", q1, q2),
         SymbolEdge("e3", q1, q1, "a"), SymbolEdge("e4", q1, q1, "b")]))
    else if regex == "ab" then
      Some(Automaton([State(0, Start), State(1, Plain), State(2, Accept)],
        [SymbolEdge("e1", q0, q1, "a"), SymbolEdge("e2", q1, q2, "b")]))
    else if regex == "a*b" then
      Some(Automaton([State(0, Start), State(1, Plain), State(2, Accept)],
        [SymbolEdge("e1", q0, q1, "a"), SymbolEdge("e2", q0, q2, "b"),
         SymbolEdge("e3", q1, q1, "a"), SymbolEdge("e4", q1, q2, "b")]))
    else if regex == "a+b*c?" then
      Some(Automaton([State(0, Start), State(1, Plain), State(2, Plain), State(3, Accept)],
        [SymbolEdge("e1", q0, q1, "a"), SymbolEdge("e2", q1, q1, "a"), EpsilonEdge("e3", q1, q2),
         SymbolEdge("e4", q2, q2, "b"), EpsilonEdge("e5", q2, q3), SymbolEdge("e6", q2, q3, "c")]))
    else None
  }

  /** `regex.replace(/[()]/g, '').split('|')`. */
  function AlternationParts(regex: string): seq<string>
  {
    Split(RemoveChars(regex, {'(', ')'}), '|')
  }

  /** A pattern holding `|` splits into at least two alternatives. */
  lemma AlternationPartsCount(regex: string)
    requires '|' in regex
    ensures |AlternationParts(regex)| >= 2
  {
    CountMember(regex, {'|'}, '|');
    RemoveCharsKeeps(regex, {'(', ')'}, '|');
  }

  /** JavaScript's `s || d` on strings: the default when `s` is empty. */
  function OrDefault(s: string, d: string): string
  {
    if s == "" then d else s
  }

  /** The four-state diagram of the `|` branch; its labels are the first two alternatives. */
  function AlternationNfa(regex: string): Automaton
  {
    var parts := AlternationParts(regex);
    var q0, q1, q2, q3 := StateName(0), StateName(1), StateName(2), StateName(3);
    Automaton([State(0, Start), State(1, Plain), State(2, Plain), State(3, Accept)],
      [EpsilonEdge("e1", q0, q1), EpsilonEdge("e2", q0, q2),
       SymbolEdge("e3", q1, q3, OrDefault(if |parts| > 0 then parts[0] else "", "a")),
       SymbolEdge("e4", q2, q3, OrDefault(if |parts| > 1 then parts[1] else "", "b"))])
  }

  /** The type of chain state `i` out of `n + 1`: the first starts, the last of a non-empty chain accepts. */
  function ChainKind(i: nat, n: nat): NodeType
  {
    if i == 0 then Start else if i == n then Accept else Plain
  }

  /** The chain edge reading character `i`, from state `i` to state `i + 1`. */
  function ChainEdge(regex: string, i: nat): Edge
    requires i < |regex|
  {
    SymbolEdge("e" + NatToString(i + 1), StateName(i), StateName(i + 1), [regex[i]])
  }

  /** The default branch: one state per prefix of the pattern, one edge per character. */
  function ChainNfa(regex: string): Automaton
  {
    Automaton(seq(|regex| + 1, i requires 0 <= i <= |regex| => State(i, ChainKind(i, |regex|))),
              seq(|regex|, i requires 0 <= i < |regex| => ChainEdge(regex, i)))
  }

  /** The specification of `parseRegexToNFA`. */
  function NfaOf(regex: string): Automaton
  {
    match FixedNfa(regex)
    case Some(a) => a
    case None => if '|' in regex then AlternationNfa(regex) else ChainNfa(regex)
  }

  /** The six recognised patterns are these and no others. */
  predicate IsFixedPattern(regex: string)
  {
    regex == "a*" || regex == "a+" || regex == "(a|b)*" || regex == "ab" || regex == "a*b" || regex == "a+b*c?"
  }

  lemma FixedPatterns(regex: string)
    ensures FixedNfa(regex).Some? <==> IsFixedPattern(regex)
  {
  }

  method ParseRegexToNFA(regex: string) returns (r: Automaton)
    ensures r == NfaOf(regex)
  {
    var alloc := new StateAllocator();
    var nodes: seq<Node>, edges: seq<Edge>;
    FixedPatterns(regex);
    if IsFixedPattern(regex) {
      nodes, edges := BuildFixed(alloc, regex);
    } else if '|' in regex {
      nodes, edges := BuildAlternation(alloc, regex);
    } else {
      nodes, edges := BuildChain(alloc, regex);
    }
    return Automaton(nodes, edges);
  }

  /** The branches of `parseRegexToNFA` for the six recognised patterns. */
  method BuildFixed(alloc: StateAllocator, regex: string) returns (nodes: seq<Node>, edges: seq<Edge>)
    requires alloc.next == 0 && IsFixedPattern(regex)
    modifies alloc
    ensures FixedNfa(regex) == Some(Automaton(nodes, edges))
  {
    if regex == "a*" {
      var q0 := alloc.Create(Start);
      var q1 := alloc.Create(Accept);
      nodes := [q0, q1];
      edges := [EpsilonEdge("e1", q0.id, q1.id), SymbolEdge("e2", q0.id, q0.id, "a")];
    } else if regex == "a+" {
      var q0 := alloc.Create(Start);
      var q1 := alloc.Create(Plain);
      var q2 := alloc.Create(Accept);
      nodes := [q0, q1, q2];
      edges := [SymbolEdge("e1", q0.id, q1.id, "a"), EpsilonEdge("e2", q1.id, q2.id),
                SymbolEdge("e3", q1.id, q1.id, "a")];
    } else if regex == "(a|b)*" {
      var q0 := alloc.Create(Start);
      var q1 := alloc.Create(Plain);
      var q2 := alloc.Create(Accept);
      nodes := [q0, q1, q2];
      edges := [EpsilonEdge("e1", q0.id, q1.id), EpsilonEdge("e2", q1.id, q2.id),
                SymbolEdge("e3", q1.id, q1.id, "a"), SymbolEdge("e4", q1.id, q1.id, "b")];
    } else if regex == "ab" {
      var q0 := alloc.Create(Start);
      var q1 := alloc.Create(Plain);
      var q2 := alloc.Create(Accept);
      nodes := [q0, q1, q2];
      edges := [SymbolEdge("e1", q0.id, q1.id, "a"), SymbolEdge("e2", q1.id, q2.id, "b")];
    } else if regex == "a*b" {
      var q0 := alloc.Create(Start);
      var q1 := alloc.Create(Plain);
      var q2 := alloc.Create(Accept);
      nodes := [q0, q1, q2];
      edges := [SymbolEdge("e1", q0.id, q1.id, "a"), SymbolEdge("e2", q0.id, q2.id, "b"),
                SymbolEdge("e3", q1.id, q1.id, "a"), SymbolEdge("e4", q1.id, q2.id, "b")];
    } else {
      var q0 := alloc.Create(Start);
      var q1 := alloc.Create(Plain);
      var q2 := alloc.Create(Plain);
      var q3 := alloc.Create(Accept);
      nodes := [q0, q1, q2, q3];
      edges := [SymbolEdge("e1", q0.id, q1.id, "a"), SymbolEdge("e2", q1.id, q1.id, "a"),
                EpsilonEdge("e3", q1.id, q2.id), SymbolEdge("e4", q2.id, q2.id, "b"),
                EpsilonEdge("e5", q2.id, q3.id), SymbolEdge("e6", q2.id, q3.id, "c")];
    }
  }

  /** The `|` branch: two epsilon edges out of `q0`, then one edge per alternative into `q3`. */
  method BuildAlternation(alloc: StateAllocator, regex: string) returns (nodes: seq<Node>, edges: seq<Edge>)
    requires alloc.next == 0 && '|' in regex
    modifies alloc
    ensures Automaton(nodes, edges) == AlternationNfa(regex)
  {
    var q0 := alloc.Create(Start);
    var q1 := alloc.Create(Plain);
    var q2 := alloc.Create(Plain);
    var q3 := alloc.Create(Accept);
    nodes := [q0, q1, q2, q3];
    var parts := AlternationParts(regex);
    AlternationPartsCount(regex);
    edges := [EpsilonEdge("e1", q0.id, q1.id), EpsilonEdge("e2", q0.id, q2.id),
              SymbolEdge("e3", q1.id, q3.id, OrDefault(parts[0], "a")),
              SymbolEdge("e4", q2.id, q3.id, OrDefault(parts[1], "b"))];
  }

  /** The chain grows by one state and one edge per character. */
  lemma ChainPrefixStep(regex: string, i: nat)
    requires i < |regex|
    ensures var a := ChainNfa(regex);
      && a.nodes[..i + 2] == a.nodes[..i + 1] + [State(i + 1, if i == |regex| - 1 then Accept else Plain)]
      && a.edges[..i + 1] == a.edges[..i] + [SymbolEdge("e" + NatToString(i + 1), StateName(i), StateName(i + 1), [regex[i]])]
      && a.nodes[i].id == StateName(i)
  {
    var a := ChainNfa(regex);
    assert a.nodes[..i + 2] == a.nodes[..i + 1] + [a.nodes[i + 1]];
    assert a.edges[..i + 1] == a.edges[..i] + [a.edges[i]];
  }

  /** The default branch: a start state, then one new state and one edge per character. */
  method BuildChain(alloc: StateAllocator, regex: string) returns (nodes: seq<Node>, edges: seq<Edge>)
    requires alloc.next == 0
    modifies alloc
    ensures Automaton(nodes, edges) == ChainNfa(regex)
  {
    ghost var chain := ChainNfa(regex);
    var startState := alloc.Create(Start);
    nodes, edges := [startState], [];
    var currentState := startState;
    for index := 0 to |regex|
      invariant alloc.next == index + 1
      invariant nodes == chain.nodes[..index + 1]
      invariant edges == chain.edges[..index]
      invariant currentState == nodes[index]
    {
      var nextState := alloc.Create(if index == |regex| - 1 then Accept else Plain);
      ChainPrefixStep(regex, index);
      nodes := nodes + [nextState];
      edges := edges + [SymbolEdge("e" + NatToString(index + 1), currentState.id, nextState.id, [regex[index]])];
      currentState := nextState;
    }
    assert nodes == chain.nodes && edges == chain.edges;
  }

  // =====================================================================
  // Shape of every builder's result
  // =====================================================================

  /** State `i` is `q<i>`, with the same id and label. */
  predicate SequentialStates(a: Automaton)
  {
    forall i :: 0 <= i < |a.nodes| ==> a.nodes[i].id == StateName(i) && a.nodes[i].caption == StateName(i)
  }

  /** Exactly one start state, and it is the first one. */
  predicate StartsAtQ0(a: Automaton)
  {
    && |a.nodes| >= 1 && a.nodes[0].kind == Start
    && forall i :: 1 <= i < |a.nodes| ==> a.nodes[i].kind != Start
  }

  /** Every edge joins two states of the diagram. */
  predicate EdgesWithinNodes(a: Automaton)
  {
    forall e :: e in a.edges ==> e.source in NodeIds(a) && e.target in NodeIds(a)
  }

  predicate WellFormed(a: Automaton)
  {
    SequentialStates(a) && StartsAtQ0(a) && EdgesWithinNodes(a)
  }

  /** Sequentially named states have pairwise distinct ids. */
  lemma SequentialIdsDistinct(a: Automaton, i: nat, j: nat)
    requires SequentialStates(a) && i < j < |a.nodes|
    ensures a.nodes[i].id != a.nodes[j].id
  {
    StateNameInjective(i, j);
  }

  /** A well-formed diagram starts at `q0`. */
  lemma WellFormedStart(a: Automaton)
    requires WellFormed(a)
    ensures StartId(a) == Some(StateName(0))
  {
  }

  /** With sequential names, `q<i>` is a state of the diagram for every `i` below the number of states. */
  lemma StatesInIds(a: Automaton)
    requires SequentialStates(a)
    ensures forall i :: 0 <= i < |a.nodes| ==> StateName(i) in NodeIds(a)
  {
    forall i | 0 <= i < |a.nodes|
      ensures StateName(i) in NodeIds(a)
    {
      assert a.nodes[i] in a.nodes;
    }
  }

  /** The only accept state of a sequentially named diagram whose state `k` alone accepts is `q<k>`. */
  lemma SingleAccept(a: Automaton, k: nat)
    requires SequentialStates(a) && k < |a.nodes| && a.nodes[k].kind == Accept
    requires forall i :: 0 <= i < |a.nodes| && i != k ==> a.nodes[i].kind != Accept
    ensures AcceptIds(a) == {StateName(k)}
  {
    assert a.nodes[k] in a.nodes;
    forall x | x in AcceptIds(a)
      ensures x == StateName(k)
    {
      var m :| m in a.nodes && m.kind == Accept && m.id == x;
      var j :| 0 <= j < |a.nodes| && a.nodes[j] == m;
    }
  }

  lemma FixedWellFormed(regex: string)
    requires FixedNfa(regex).Some?
    ensures WellFormed(FixedNfa(regex).value)
  {
    FixedSequential(regex);
    FixedStarts(regex);
    FixedEdges(regex);
  }

  lemma FixedSequential(regex: string)
    requires FixedNfa(regex).Some?
    ensures SequentialStates(FixedNfa(regex).value)
  {
  }

  lemma FixedStarts(regex: string)
    requires FixedNfa(regex).Some?
    ensures StartsAtQ0(FixedNfa(regex).value)
  {
  }

  lemma FixedEdges(regex: string)
    requires FixedNfa(regex).Some?
    ensures EdgesWithinNodes(FixedNfa(regex).value)
  {
    var a := FixedNfa(regex).value;
    assert a.nodes[0] in a.nodes && a.nodes[1] in a.nodes;
    if |a.nodes| > 2 {
      assert a.nodes[2] in a.nodes;
    }
    if |a.nodes| > 3 {
      assert a.nodes[3] in a.nodes;
    }
  }

  lemma AlternationWellFormed(regex: string)
    ensures WellFormed(AlternationNfa(regex))
  {
    AlternationStates(regex);
    AlternationEdges(regex);
  }

  lemma AlternationStates(regex: string)
    ensures SequentialStates(AlternationNfa(regex)) && StartsAtQ0(AlternationNfa(regex))
  {
    var nodes := AlternationNfa(regex).nodes;
    assert nodes == [State(0, Start), State(1, Plain), State(2, Plain), State(3, Accept)];
  }

  lemma AlternationEdges(regex: string)
    ensures EdgesWithinNodes(AlternationNfa(regex))
  {
    var a := AlternationNfa(regex);
    assert a.nodes[0] in a.nodes && a.nodes[1] in a.nodes;
    assert a.nodes[2] in a.nodes && a.nodes[3] in a.nodes;
  }

  lemma ChainWellFormed(regex: string)
    ensures WellFormed(ChainNfa(regex))
  {
    var a := ChainNfa(regex);
    StatesInIds(a);
    forall e | e in a.edges
      ensures e.source in NodeIds(a) && e.target in NodeIds(a)
    {
      var i :| 0 <= i < |a.edges| && a.edges[i] == e;
    }
  }

  /** Every result of `ParseRegexToNFA` has sequential ids, a single start `q0` and edges between its states. */
  lemma NfaWellFormed(regex: string)
    ensures WellFormed(NfaOf(regex))
  {
    if FixedNfa(regex).Some? {
      FixedWellFormed(regex);
    } else if '|' in regex {
      AlternationWellFormed(regex);
    } else {
      ChainWellFormed(regex);
    }
  }

  /** The six recognised patterns have fixed numbers of states and edges. */
  lemma FixedSizes(regex: string)
    ensures regex == "a*" ==> |NfaOf(regex).nodes| == 2 && |NfaOf(regex).edges| == 2
    ensures regex == "a+" ==> |NfaOf(regex).nodes| == 3 && |NfaOf(regex).edges| == 3
    ensures regex == "(a|b)*" ==> |NfaOf(regex).nodes| == 3 && |NfaOf(regex).edges| == 4
    ensures regex == "ab" ==> |NfaOf(regex).nodes| == 3 && |NfaOf(regex).edges| == 2
    ensures regex == "a*b" ==> |NfaOf(regex).nodes| == 3 && |NfaOf(regex).edges| == 4
    ensures regex == "a+b*c?" ==> |NfaOf(regex).nodes| == 4 && |NfaOf(regex).edges| == 6
  {
  }

  /**
   * Any other pattern holding `|`: four states, two epsilon edges out of
   * `q0`, and the edges into `q3` read the first two alternatives, `a` and
   * `b` standing in for an empty one.
   */
  lemma AlternationShape(regex: string)
    requires FixedNfa(regex).None? && '|' in regex
    ensures |AlternationParts(regex)| >= 2
    ensures var a := NfaOf(regex); var parts := AlternationParts(regex);
      && |a.nodes| == 4 && |a.edges| == 4
      && AcceptIds(a) == {StateName(3)}
      && a.edges[0].kind == Epsilon && a.edges[0].source == StateName(0) && a.edges[0].target == StateName(1)
      && a.edges[1].kind == Epsilon && a.edges[1].source == StateName(0) && a.edges[1].target == StateName(2)
      && a.edges[2].kind == Labelled && a.edges[2].source == StateName(1) && a.edges[2].target == StateName(3)
      && a.edges[3].kind == Labelled && a.edges[3].source == StateName(2) && a.edges[3].target == StateName(3)
      && a.edges[2].symbol == (if parts[0] == "" then "a" else parts[0])
      && a.edges[3].symbol == (if parts[1] == "" then "b" else parts[1])
      && '|' !in a.edges[2].symbol && '|' !in a.edges[3].symbol
  {
    AlternationPartsCount(regex);
    SingleAccept(AlternationNfa(regex), 3);
  }

  /**
   * Any other pattern of `n` characters: `n + 1` states and `n` edges, edge
   * `i` reading character `i` from `q<i>` to `q<i+1>`; the last state accepts
   * iff the pattern is non-empty.
   */
  lemma ChainShape(regex: string)
    requires FixedNfa(regex).None? && '|' !in regex
    ensures var a := NfaOf(regex);
      && |a.nodes| == |regex| + 1 && |a.edges| == |regex|
      && (forall i :: 0 <= i < |regex| ==>
            a.edges[i].source == StateName(i) && a.edges[i].target == StateName(i + 1)
            && a.edges[i].symbol == [regex[i]] && a.edges[i].kind == Labelled)
      && AcceptIds(a) == if |regex| > 0 then {StateName(|regex|)} else {}
  {
    ChainAccept(regex);
  }

  lemma ChainAccept(regex: string)
    ensures AcceptIds(ChainNfa(regex)) == if |regex| > 0 then {StateName(|regex|)} else {}
  {
    var a := ChainNfa(regex);
    if |regex| > 0 {
      SingleAccept(a, |regex|);
    } else {
      assert a.nodes == [State(0, Start)];
    }
  }

  /** Under `simulateAutomaton`, chain state `q<i>` moves on exactly the character `regex[i]`. */
  lemma ChainTransition(regex: string, i: nat, c: char)
    requires i <= |regex|
    ensures var t := Simulator.FindTransition(ChainNfa(regex).edges, StateName(i), c);
      if i < |regex| && c == regex[i] then t == Some(i) else t == None
  {
    var edges := ChainNfa(regex).edges;
    forall k | 0 <= k < |edges| && k != i
      ensures !Simulator.Matches(edges[k], StateName(i), c)
    {
      StateNameInjective(k, i);
    }
    if i < |regex| {
      assert edges[i].source == StateName(i) && edges[i].symbol == [regex[i]];
      assert Simulator.Matches(edges[i], StateName(i), c) <==> c == regex[i];
    }
  }

  /** With no input left, the walk accepts at the chain's last state only (and nowhere in an empty chain). */
  lemma ChainWalkEnd(regex: string, i: nat)
    requires i <= |regex|
    ensures Simulator.Walk(ChainNfa(regex), StateName(i), []).accepted <==> |regex| > 0 && i == |regex|
  {
    ChainAccept(regex);
    if i < |regex| {
      StateNameInjective(i, |regex|);
    }
  }

  /** Reading `regex[i]` at chain state `q<i>` moves on to `q<i+1>`. */
  lemma ChainWalkStep(regex: string, i: nat, w: string)
    requires i < |regex| && w != [] && w[0] == regex[i]
    ensures Simulator.Walk(ChainNfa(regex), StateName(i), w).accepted
        == Simulator.Walk(ChainNfa(regex), StateName(i + 1), w[1..]).accepted
  {
    ChainTransition(regex, i, w[0]);
    assert ChainNfa(regex).edges[i].target == StateName(i + 1);
  }

  /** Any other character stops the walk, which then rejects. */
  lemma ChainWalkStuck(regex: string, i: nat, w: string)
    requires i <= |regex| && w != [] && !(i < |regex| && w[0] == regex[i])
    ensures !Simulator.Walk(ChainNfa(regex), StateName(i), w).accepted
  {
    ChainTransition(regex, i, w[0]);
  }

  /** From chain state `q<i>` the single-state walk accepts exactly the rest of the pattern. */
  lemma {:induction false} ChainWalk(regex: string, i: nat, w: string)
    requires i <= |regex|
    ensures Simulator.Walk(ChainNfa(regex), StateName(i), w).accepted <==> |regex| > 0 && w == regex[i..]
    decreases |w|
  {
    if w == [] {
      ChainWalkEnd(regex, i);
    } else if i < |regex| && w[0] == regex[i] {
      ChainWalkStep(regex, i, w);
      ChainWalk(regex, i + 1, w[1..]);
      assert w == regex[i..] <==> w[1..] == regex[i + 1..] by {
        assert w == [w[0]] + w[1..];
        assert regex[i..] == [regex[i]] + regex[i + 1..];
      }
    } else {
      ChainWalkStuck(regex, i, w);
      if i < |regex| {
        assert w[0] != regex[i..][0];
      }
    }
  }

  /** The chain diagram, run by `simulateAutomaton`, accepts exactly the pattern itself (and nothing when it is empty). */
  lemma ChainAcceptsPattern(regex: string, w: string)
    requires FixedNfa(regex).None? && '|' !in regex
    ensures Simulator.Simulate(NfaOf(regex), w).accepted <==> |regex| > 0 && w == regex
  {
    ChainWellFormed(regex);
    WellFormedStart(ChainNfa(regex));
    ChainWalk(regex, 0, w);
  }

  // =====================================================================
  // convertNFAToDFA
  // =====================================================================

  /** `edges.filter(e => e.type !== 'epsilon').map(e => e.label)`. */
  function NonEpsilonLabels(edges: seq<Edge>): (ls: seq<string>)
    ensures |ls| <= |edges|
    ensures forall l :: l in ls <==> exists e :: e in edges && e.kind != Epsilon && e.symbol == l
  {
    if edges == [] then []
    else
      var rest := NonEpsilonLabels(edges[1..]);
      assert forall e :: e in edges <==> e == edges[0] || e in edges[1..];
      if edges[0].kind != Epsilon then [edges[0].symbol] + rest else rest
  }

  /** `edges.map(e => e.label)`. */
  function Labels(edges: seq<Edge>): (ls: seq<string>)
    ensures |ls| == |edges| && forall i :: 0 <= i < |edges| ==> ls[i] == edges[i].symbol
  {
    if edges == [] then [] else [edges[0].symbol] + Labels(edges[1..])
  }

  function Min(x: int, y: int): int
  {
    if x <= y then x else y
  }

  /** The three fixed states `q0` (start), `q1`, `q2` (accept). */
  function DfaNodes(): seq<Node>
  {
    [State(0, Start), State(1, Plain), State(2, Accept)]
  }

  /** The edge from state `i` to state `i + 1` carrying the `i`-th distinct label. */
  function DfaEdge(labels: seq<string>, i: nat): Edge
    requires i < |labels|
  {
    SymbolEdge("dfa_e" + NatToString(i + 1), StateName(i), StateName(i + 1), labels[i])
  }

  /** The specification of `convertNFAToDFA`: only the first two distinct labels get an edge. */
  function DfaOf(nfa: Automaton): Automaton
  {
    var labels := Distinct(NonEpsilonLabels(nfa.edges));
    Automaton(DfaNodes(), seq(Min(2, |labels|), i requires 0 <= i < Min(2, |labels|) => DfaEdge(labels, i)))
  }

  method ConvertNFAToDFA(nfa: Automaton) returns (r: Automaton)
    ensures r == DfaOf(nfa)
  {
    var alloc := new StateAllocator();
    var q0 := alloc.Create(Start);
    var q1 := alloc.Create(Plain);
    var q2 := alloc.Create(Accept);
    var nodes := [q0, q1, q2];
    var uniqueLabels := Distinct(NonEpsilonLabels(nfa.edges));
    ghost var spec := DfaOf(nfa);
    var edges: seq<Edge> := [];
    for index := 0 to |uniqueLabels|
      invariant edges == spec.edges[..Min(2, index)]
    {
      if index < |nodes| - 1 {
        edges := edges + [SymbolEdge("dfa_e" + NatToString(index + 1), nodes[index].id, nodes[index + 1].id,
                                     uniqueLabels[index])];
      }
    }
    return Automaton(nodes, edges);
  }

  /** `[...new Set(xs)]` starts with the first element. */
  lemma {:induction false} DistinctHead<T(!new)>(xs: seq<T>)
    requires xs != []
    ensures Distinct(xs) != [] && Distinct(xs)[0] == xs[0]
  {
    var pre := xs[..|xs| - 1];
    assert Distinct(xs) == AddAll(Distinct(pre), [xs[|xs| - 1]]);
    if |xs| > 1 {
      DistinctHead(pre);
      assert pre[0] == xs[0];
    }
  }

  /** `convertNFAToDFA` always yields the states `q0` (start), `q1`, `q2` (accept), joined by edges between states. */
  lemma DfaWellFormed(nfa: Automaton)
    ensures WellFormed(DfaOf(nfa)) && |DfaOf(nfa).nodes| == 3 && AcceptIds(DfaOf(nfa)) == {StateName(2)}
  {
    DfaStates(nfa);
    DfaEdgesWithin(nfa);
  }

  lemma DfaStates(nfa: Automaton)
    ensures SequentialStates(DfaOf(nfa)) && StartsAtQ0(DfaOf(nfa)) && |DfaOf(nfa).nodes| == 3
    ensures AcceptIds(DfaOf(nfa)) == {StateName(2)}
  {
    var d := DfaOf(nfa);
    assert d.nodes == DfaNodes();
    SingleAccept(d, 2);
  }

  lemma DfaEdgesWithin(nfa: Automaton)
    ensures EdgesWithinNodes(DfaOf(nfa))
  {
    var d := DfaOf(nfa);
    forall e | e in d.edges
      ensures e.source in NodeIds(d) && e.target in NodeIds(d)
    {
      var i :| 0 <= i < |d.edges| && d.edges[i] == e;
      assert d.nodes[i] in d.nodes && d.nodes[i + 1] in d.nodes;
    }
  }

  /**
   * Edge `i` of `convertNFAToDFA` joins `q<i>` to `q<i+1>`, is not an epsilon
   * edge and carries the `i`-th distinct non-epsilon label of the input, so
   * there are min(2, #distinct labels) edges and none when the input has no
   * non-epsilon edge.
   */
  lemma DfaEdges(nfa: Automaton)
    ensures var d := DfaOf(nfa); var ls := NonEpsilonLabels(nfa.edges);
      && |d.edges| == Min(2, |Distinct(ls)|)
      && (forall i :: 0 <= i < |d.edges| ==>
            d.edges[i].source == StateName(i) && d.edges[i].target == StateName(i + 1)
            && d.edges[i].kind != Epsilon && d.edges[i].symbol == Distinct(ls)[i])
      && (d.edges == [] <==> ls == [])
  {
    var ls := NonEpsilonLabels(nfa.edges);
    if ls != [] {
      assert ls[0] in Distinct(ls);
    }
  }

  /**
   * The labels of `convertNFAToDFA` are labels of non-epsilon input edges
   * in order of first occurrence: the first edge reads the label of the
   * first non-epsilon edge, and a second edge reads a different label that
   * first occurs later.
   */
  lemma DfaLabelOrder(nfa: Automaton)
    ensures var d := DfaOf(nfa); var ls := NonEpsilonLabels(nfa.edges);
      && (forall i :: 0 <= i < |d.edges| ==> d.edges[i].symbol in ls)
      && (d.edges != [] ==> d.edges[0].symbol == ls[0])
      && (|d.edges| == 2 ==> d.edges[0].symbol != d.edges[1].symbol
                             && FirstIndex(ls, d.edges[0].symbol) < FirstIndex(ls, d.edges[1].symbol))
  {
    var d := DfaOf(nfa);
    var ls := NonEpsilonLabels(nfa.edges);
    var u := Distinct(ls);
    assert forall i :: 0 <= i < |d.edges| ==> d.edges[i].symbol == u[i] && u[i] in u;
    if d.edges != [] {
      DistinctHead(ls);
    }
    if |d.edges| == 2 {
      DistinctOrder(ls, 0, 1);
    }
  }

  // =====================================================================
  // minimizeDFA
  // =====================================================================

  /** The specification of `minimizeDFA`: one edge carrying all distinct labels joined by commas. */
  function MinOf(dfa: Automaton): Automaton
  {
    var combined := Join(Distinct(Labels(dfa.edges)), ",");
    Automaton([State(0, Start), State(1, Accept)],
              [SymbolEdge("min_e1", StateName(0), StateName(1), combined)])
  }

  method MinimizeDFA(dfa: Automaton) returns (r: Automaton)
    ensures r == MinOf(dfa)
  {
    var alloc := new StateAllocator();
    var q0 := alloc.Create(Start);
    var q1 := alloc.Create(Accept);
    var nodes := [q0, q1];
    var uniqueLabels := Distinct(Labels(dfa.edges));
    var combinedLabel := Join(uniqueLabels, ",");
    var edges := [SymbolEdge("min_e1", q0.id, q1.id, combinedLabel)];
    return Automaton(nodes, edges);
  }

  /**
   * `minimizeDFA` always yields `q0` (start) and `q1` (accept) joined by one
   * edge. When no input label holds a comma and there is at least one
   * input edge, splitting that edge's label at commas gives back the
   * distinct input labels in order of first occurrence.
   */
  lemma MinShape(dfa: Automaton)
    ensures var m := MinOf(dfa);
      && WellFormed(m) && |m.nodes| == 2 && AcceptIds(m) == {StateName(1)}
      && |m.edges| == 1 && m.edges[0].source == StateName(0) && m.edges[0].target == StateName(1)
  {
    var m := MinOf(dfa);
    assert m.nodes[0] in m.nodes && m.nodes[1] in m.nodes;
    SingleAccept(m, 1);
  }

  /**
   * The label of the single `minimizeDFA` edge is empty for an input
   * without edges; when no input label holds a comma, splitting it at
   * commas gives back the distinct input labels in order of first occurrence.
   */
  lemma MinLabel(dfa: Automaton)
    ensures dfa.edges == [] ==> MinOf(dfa).edges[0].symbol == ""
    ensures dfa.edges != [] && (forall e :: e in dfa.edges ==> ',' !in e.symbol) ==>
      Split(MinOf(dfa).edges[0].symbol, ',') == Distinct(Labels(dfa.edges))
  {
    var ls := Labels(dfa.edges);
    var u := Distinct(ls);
    if dfa.edges != [] && forall e :: e in dfa.edges ==> ',' !in e.symbol {
      DistinctHead(ls);
      forall i | 0 <= i < |u|
        ensures ',' !in u[i]
      {
        assert u[i] in u;
        var k :| 0 <= k < |ls| && ls[k] == u[i];
        assert dfa.edges[k] in dfa.edges;
      }
      SplitJoin(u, ',');
    }
  }

  /** The pattern `a,b` takes the chain branch, whose labels are its three characters. */
  lemma CommaChainLabels()
    ensures NonEpsilonLabels(NfaOf("a,b").edges) == ["a", ",", "b"]
  {
    var regex := "a,b";
    assert FixedNfa(regex).None? && '|' !in regex;
    var e0, e1, e2 := ChainEdge(regex, 0), ChainEdge(regex, 1), ChainEdge(regex, 2);
    assert NfaOf(regex).edges == [e0, e1, e2];
    assert [e2][1..] == [];
    assert NonEpsilonLabels([e2]) == ["b"];
    assert [e1, e2][1..] == [e2];
    assert NonEpsilonLabels([e1, e2]) == [","] + ["b"];
    assert [e0, e1, e2][1..] == [e1, e2];
  }

  /** Its DFA keeps the first two distinct labels, `a` and `,`. */
  lemma CommaDfaLabels()
    ensures Labels(DfaOf(NfaOf("a,b")).edges) == ["a", ","]
  {
    var nfa, ls := NfaOf("a,b"), ["a", ",", "b"];
    CommaChainLabels();
    DistinctNoDups(ls);
    assert Distinct(NonEpsilonLabels(nfa.edges)) == ls;
    var es := DfaOf(nfa).edges;
    assert |es| == 2 && es[0].symbol == "a" && es[1].symbol == ",";
  }

  /** Joining `a` and `,` with commas gives `a,,`, which splits into three parts. */
  lemma CommaJoinSplit()
    ensures Join(["a", ","], ",") == "a,,"
    ensures Split("a,,", ',') == ["a", "", ""]
  {
    assert ["a", ","][1..] == [","];
    assert Split(",", ',') == ["", ""] by { assert ","[1..] == ""; }
    assert Split(",,", ',') == ["", "", ""] by { assert ",,"[1..] == ","; }
    assert "a,,"[1..] == ",," && "a,,"[0] == 'a';
    assert ["", "", ""][1..] == ["", ""] && ['a'] + "" == "a";
  }

  /**
   * A label holding a comma breaks that round trip: the DFA of the pattern
   * `a,b` keeps the labels `a` and `,`, the minimised label is `a,,`, and
   * that splits into three parts rather than two.
   */
  lemma MinLabelComma()
    ensures var d := DfaOf(NfaOf("a,b"));
      && Distinct(Labels(d.edges)) == ["a", ","]
      && MinOf(d).edges[0].symbol == "a,,"
      && |Split(MinOf(d).edges[0].symbol, ',')| == 3
  {
    CommaDfaLabels();
    DistinctNoDups(["a", ","]);
    CommaJoinSplit();
  }
}
