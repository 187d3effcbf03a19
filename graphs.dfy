/** The directed graph both algorithms work on: the nodes are the integers
    0 .. nodeCount-1 (in creation order), each carries a one-character label,
    and the edges form a set, so a pair can be present at most once. */
module Graphs {

  type Node = nat

  /** An edge (u, v) points from u to v: "u attaches to v". */
  type Edge = (Node, Node)

  datatype Graph = Graph(nodeCount: nat, labels: seq<char>, edges: set<Edge>)

  /** Every edge joins two nodes of the graph and every node has a label. */
  ghost predicate WellFormed(g: Graph) {
    |g.labels| == g.nodeCount &&
    forall e | e in g.edges :: e.0 < g.nodeCount && e.1 < g.nodeCount
  }

  /** networkx add_node(v, label=...): a new node v must be the next index;
      an existing node only has its label set. */
  function AddNode(g: Graph, v: Node, name: char): (h: Graph)
    requires v <= g.nodeCount == |g.labels|
    ensures h.nodeCount == (if v < g.nodeCount then g.nodeCount else v + 1)
    ensures |h.labels| == h.nodeCount && h.labels[v] == name
    ensures forall u | 0 <= u < g.nodeCount && u != v :: h.labels[u] == g.labels[u]
    ensures h.edges == g.edges
  {
    if v < g.nodeCount then g.(labels := g.labels[v := name])
    else g.(nodeCount := v + 1, labels := g.labels + [name])
  }

  /** networkx add_edge(u, v) on nodes that exist: the edge set gains (u, v). */
  function AddEdge(g: Graph, e: Edge): (h: Graph)
    ensures h.edges == g.edges + {e} && e in h.edges
    ensures h.nodeCount == g.nodeCount && h.labels == g.labels
  {
    g.(edges := g.edges + {e})
  }

  /** The nodes 0 .. count-1. */
  function NodesBelow(count: nat): (s: set<Node>)
    ensures forall v: Node :: v in s <==> v < count
  {
    if count == 0 then {} else NodesBelow(count - 1) + {count - 1}
  }

  /** The number of edges that end at v. */
  function InDegree(edges: set<Edge>, v: Node): (d: nat) {
    |set e | e in edges && e.1 == v|
  }

  /** The in-degrees of nodes 0 .. count-1, in node order. */
  function InDegrees(edges: set<Edge>, count: nat): (ds: seq<nat>)
    ensures |ds| == count
    ensures forall v | 0 <= v < count :: ds[v] == InDegree(edges, v)
  {
    if count == 0 then [] else InDegrees(edges, count - 1) + [InDegree(edges, count - 1)]
  }

  /** An edge into v raises v's in-degree to at least one. */
  lemma InDegreePositive(edges: set<Edge>, u: Node, v: Node)
    requires (u, v) in edges
    ensures InDegree(edges, v) >= 1
  {
    var into := set e | e in edges && e.1 == v;
    assert {(u, v)} <= into;
  }

  /** With no edge into v, v's in-degree is zero. */
  lemma InDegreeZero(edges: set<Edge>, v: Node)
    requires forall e | e in edges :: e.1 != v
    ensures InDegree(edges, v) == 0
  {
    assert (set e | e in edges && e.1 == v) == {};
  }

  /** Adding edges that all end at w leaves the in-degree of every other node as it was. */
  lemma InDegreeOther(edges: set<Edge>, added: set<Edge>, w: Node, v: Node)
    requires forall e | e in added :: e.1 == w
    requires v != w
    ensures InDegree(edges + added, v) == InDegree(edges, v)
  {
    assert (set e | e in edges + added && e.1 == v) == (set e | e in edges && e.1 == v);
  }
}
