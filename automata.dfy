/**
 * The automaton record shared by the builders and the simulators: a list of
 * nodes, each optionally flagged as a start or accept state, and a list of
 * labelled edges, each optionally flagged as an epsilon edge.
 */
module Automata {
  import opened Wrappers
  import opened Text

  /** The optional `type` of a node: `'start'`, `'accept'`, or absent. */
  datatype NodeType = Start | Accept | Plain

  /** A node; `caption` is the source's `label` field (a reserved word here). */
  datatype Node = Node(id: string, caption: string, kind: NodeType)

  /** The optional `type` of an edge: `'epsilon'`, or absent. */
  datatype EdgeType = Epsilon | Labelled

  /** An edge; `symbol` is the source's `label` field, the text the edge reads. */
  datatype Edge = Edge(id: string, source: string, target: string, symbol: string, kind: EdgeType)

  datatype Automaton = Automaton(nodes: seq<Node>, edges: seq<Edge>)

  /** The label the builders give epsilon edges. */
  const EpsilonLabel: string := "\U{03B5}"

  /** The name `q${n}` of the n-th state a builder allocates. */
  function StateName(n: nat): (s: string)
    ensures |s| >= 2 && s[0] == 'q'
  {
    "q" + NatToString(n)
  }

  lemma StateNameInjective(m: nat, n: nat)
    requires m != n
    ensures StateName(m) != StateName(n)
  {
    NatToStringInjective(m, n);
    assert StateName(m)[1..] == NatToString(m);
    assert StateName(n)[1..] == NatToString(n);
  }

  /** `nodes.find(node => node.type === 'start')`, as the index it finds. */
  function FindStart(nodes: seq<Node>): (r: Option<nat>)
    ensures r.None? <==> forall i :: 0 <= i < |nodes| ==> nodes[i].kind != Start
    ensures r.Some? ==>
      && r.value < |nodes| && nodes[r.value].kind == Start
      && forall j :: 0 <= j < r.value ==> nodes[j].kind != Start
  {
    if nodes == [] then None
    else if nodes[0].kind == Start then Some(0)
    else match FindStart(nodes[1..])
      case None => None
      case Some(k) => Some(k + 1)
  }

  /** The id of the first start node, if any. */
  function StartId(a: Automaton): Option<string>
  {
    match FindStart(a.nodes)
    case None => None
    case Some(k) => Some(a.nodes[k].id)
  }

  /** The ids of the nodes whose type is `'accept'`. */
  function AcceptIds(a: Automaton): set<string>
  {
    set n | n in a.nodes && n.kind == Accept :: n.id
  }

  /** The ids of all nodes. */
  function NodeIds(a: Automaton): set<string>
  {
    set n | n in a.nodes :: n.id
  }
}
