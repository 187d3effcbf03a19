/** Price's-model growth (prices_model, hierarchy-in-prices-model.py:15-63).

    Nodes m .. n-1 arrive one at a time.  Before each arrival the attachment
    table is derived from the current in-degrees; then the snapshot of the
    existing nodes is swept, each node drawing once per sweep, until at least
    one draw succeeds in a sweep.  Every success adds an edge from the
    drawing node to the newcomer.

    Each call of r.random() is one Draw: a 53-bit integer d standing for the
    float d / 2^53.  The draw succeeds when d / 2^53 < (k + 1) * count_k /
    (N * (m + 1)), compared exactly. */
module PricesModel {
  import opened Wrappers
  import opened Graphs
  import opened DegreeTable
  import Ranking

  /** NODE_LABLES (hierarchy-in-prices-model.py:13). */
  const NodeLabels: string := "ABCDEFGHIJKLMNOPQRSTUVWXYZ"

  /** One value of r.random(): a multiple d / 2^53 of 2^-53 in [0, 1),
      held as d (0x20_0000_0000_0000 is 2^53). */
  type Draw = d: nat | d < 0x20_0000_0000_0000

  datatype ParamError =
    | OutDegreeOutOfRange  // "m must be >= 1 and < n"
    | TooManyNodes         // more nodes than labels

  datatype GenError =
    | InvalidParameter(reason: ParamError)
    | DrawsExhausted(node: nat)  // the draws ran out while `node` was looking for a parent

  /** The two ValueError checks, in the source's order
      (hierarchy-in-prices-model.py:26-29). */
  function CheckParameters(n: int, m: int): (r: Option<ParamError>)
    ensures r == Some(OutDegreeOutOfRange) <==> m < 1 || m >= n
    ensures r == Some(TooManyNodes) <==> 1 <= m < n && n > |NodeLabels|
    ensures r == None <==> 1 <= m < n <= |NodeLabels|
  {
    if m < 1 || m >= n then Some(OutDegreeOutOfRange)
    else if n > |NodeLabels| then Some(TooManyNodes)
    else None
  }

  /** The seed graph: nodes 0 .. m-1 labelled from NodeLabels, no edges
      (hierarchy-in-prices-model.py:31-32). */
  function SeedGraph(m: nat): (g: Graph)
    requires m <= |NodeLabels|
  {
    Graph(m, NodeLabels[..m], {})
  }

  /** The invariant of the growth loop once nodes 0 .. count-1 exist:
      node i carries label NodeLabels[i], every edge runs from an older node
      to a newer one, the m seed nodes have no in-edge and every later node
      has at least one. */
  ghost predicate GrownTo(g: Graph, count: nat, m: nat) {
    && count <= |NodeLabels|
    && g.nodeCount == count
    && g.labels == NodeLabels[..count]
    && (forall e | e in g.edges :: e.0 < e.1 < count)
    && (forall v | 0 <= v < m && v < count :: InDegree(g.edges, v) == 0)
    && (forall v | m <= v < count :: InDegree(g.edges, v) >= 1)
  }

  /** Seeding establishes the invariant with m nodes. */
  lemma SeedGrown(m: nat)
    requires m <= |NodeLabels|
    ensures GrownTo(SeedGraph(m), m, m)
    ensures SeedGraph(m).edges == {}
    ensures forall i | 0 <= i < m :: SeedGraph(m).labels[i] == NodeLabels[i]
  {
    forall v | 0 <= v < m
      ensures InDegree(SeedGraph(m).edges, v) == 0
    {
      InDegreeZero(SeedGraph(m).edges, v);
    }
  }

  /** r.random() < p[k], with p[k] = (k + 1) * count_k / (N * (m + 1)) held
      as numerator `weight` over `denominator`: d / 2^53 < weight / denominator
      with both sides multiplied out. */
  predicate Attaches(d: Draw, weight: nat, denominator: nat) {
    d * denominator < weight * 0x20_0000_0000_0000
  }

  /** A draw succeeds with positive chance exactly when the weight is
      positive: the draw 0 succeeds then, and no draw succeeds otherwise. */
  lemma AttachesIffWeight(weight: nat, denominator: nat)
    requires denominator > 0
    ensures weight > 0 <==> Attaches(0, weight, denominator)
    ensures weight == 0 ==> forall d: Draw :: !Attaches(d, weight, denominator)
  {
  }

  /** The in-degrees of the nodes that already exist are untouched by edges
      that all end at the newcomer. */
  lemma InDegreesKept(before: set<Edge>, after: set<Edge>, newNode: Node)
    requires before <= after
    requires forall e | e in after - before :: e.1 == newNode
    ensures forall v: Node | v != newNode :: InDegree(after, v) == InDegree(before, v)
  {
    assert before + (after - before) == after;
    forall v: Node | v != newNode
      ensures InDegree(after, v) == InDegree(before, v)
    {
      InDegreeOther(before, after - before, newNode, v);
    }
  }

  /** The edges from each node of `parents` into v. */
  function EdgesInto(parents: set<Node>, v: Node): (es: set<Edge>)
    ensures forall e | e in es :: e.0 in parents && e.1 == v
    ensures forall u | u in parents :: (u, v) in es
  {
    set u | u in parents :: (u, v)
  }

  /** The graph after the newcomer's sweep in which the draws of `parents`
      succeeded: unchanged when none did, otherwise with the newcomer added
      under its label and an edge from each parent into it. */
  function AfterSweep(before: Graph, newNode: Node, parents: set<Node>): (h: Graph)
    requires before.nodeCount == newNode == |before.labels| && newNode < |NodeLabels|
  {
    if parents == {} then before
    else Graph(newNode + 1, before.labels + [NodeLabels[newNode]],
               before.edges + EdgesInto(parents, newNode))
  }

  /** The nodes among the first `count` of the snapshot whose draw succeeds:
      node u draws ds[u] against p[k] for its in-degree k = degrees[u]
      (hierarchy-in-prices-model.py:57-58). */
  function Winners(degrees: seq<nat>, table: seq<nat>, denominator: nat,
                   ds: seq<Draw>, count: nat): (w: set<Node>)
    requires count <= |ds| && count <= |degrees|
    requires forall v | 0 <= v < count :: degrees[v] < |table|
    ensures forall u: Node :: u in w <==>
      u < count && Attaches(ds[u], table[degrees[u]], denominator)
  {
    if count == 0 then {}
    else
      Winners(degrees, table, denominator, ds, count - 1) +
      (if Attaches(ds[count - 1], table[degrees[count - 1]], denominator) then {count - 1} else {})
  }

  /** Whether some draw among the first `count` of the sweep succeeds: the
      loop's `attached` flag (hierarchy-in-prices-model.py:55-61). */
  predicate AnyAttaches(degrees: seq<nat>, table: seq<nat>, denominator: nat, ds: seq<Draw>, count: nat)
    requires count <= |ds| && count <= |degrees|
    requires forall v | 0 <= v < count :: degrees[v] < |table|
  {
    count > 0 &&
    (AnyAttaches(degrees, table, denominator, ds, count - 1) ||
     Attaches(ds[count - 1], table[degrees[count - 1]], denominator))
  }

  /** The flag is set exactly when the sweep has some winner. */
  lemma {:induction false} AnyAttachesIffWinners(degrees: seq<nat>, table: seq<nat>, denominator: nat,
                                                 ds: seq<Draw>, count: nat)
    requires count <= |ds| && count <= |degrees|
    requires forall v | 0 <= v < count :: degrees[v] < |table|
    ensures AnyAttaches(degrees, table, denominator, ds, count) <==>
            Winners(degrees, table, denominator, ds, count) != {}
  {
    if count > 0 {
      AnyAttachesIffWinners(degrees, table, denominator, ds, count - 1);
      if Attaches(ds[count - 1], table[degrees[count - 1]], denominator) {
        assert count - 1 in Winners(degrees, table, denominator, ds, count);
      }
    }
  }

  /** The graph after the first `count` draws of one sweep, as the loop body
      builds it (hierarchy-in-prices-model.py:57-60): node u draws ds[u]
      against p[degrees[u]] and on success the newcomer is added under its
      label, then the edge (u, newNode). */
  function SweepGraph(before: Graph, newNode: Node, degrees: seq<nat>, table: seq<nat>, denominator: nat,
                      ds: seq<Draw>, count: nat): (h: Graph)
    requires before.nodeCount == newNode == |before.labels| && newNode < |NodeLabels|
    requires count <= |ds| && count <= |degrees|
    requires forall v | 0 <= v < count :: degrees[v] < |table|
    ensures |h.labels| == h.nodeCount ==
      if AnyAttaches(degrees, table, denominator, ds, count) then newNode + 1 else newNode
  {
    if count == 0 then before
    else
      var g := SweepGraph(before, newNode, degrees, table, denominator, ds, count - 1);
      if Attaches(ds[count - 1], table[degrees[count - 1]], denominator)
      then AddEdge(AddNode(g, newNode, NodeLabels[newNode]), (count - 1, newNode))
      else g
  }

  /** One success by `node` during the sweep (add_node, then add_edge,
      hierarchy-in-prices-model.py:59-60) adds it to the sweep's parents. */
  lemma SweepAttach(before: Graph, newNode: Node, parents: set<Node>, node: Node)
    requires before.nodeCount == newNode == |before.labels| && newNode < |NodeLabels|
    ensures AddEdge(AddNode(AfterSweep(before, newNode, parents), newNode, NodeLabels[newNode]), (node, newNode))
         == AfterSweep(before, newNode, parents + {node})
  {
    assert EdgesInto(parents + {node}, newNode) == EdgesInto(parents, newNode) + {(node, newNode)};
    if parents != {} {
      var h := AfterSweep(before, newNode, parents);
      assert h.labels[newNode := NodeLabels[newNode]] == h.labels;
    }
  }

  /** The sweep the loop body builds is the sweep of its winners: the
      newcomer appears exactly when some draw succeeded, with one edge from
      each node whose draw succeeded. */
  lemma {:induction false} SweepGraphIsAfterSweep(before: Graph, newNode: Node, degrees: seq<nat>, table: seq<nat>,
                                                  denominator: nat, ds: seq<Draw>, count: nat)
    requires before.nodeCount == newNode == |before.labels| && newNode < |NodeLabels|
    requires count <= |ds| && count <= |degrees|
    requires forall v | 0 <= v < count :: degrees[v] < |table|
    ensures SweepGraph(before, newNode, degrees, table, denominator, ds, count) ==
            AfterSweep(before, newNode, Winners(degrees, table, denominator, ds, count))
  {
    if count > 0 {
      SweepGraphIsAfterSweep(before, newNode, degrees, table, denominator, ds, count - 1);
      SweepAttach(before, newNode, Winners(degrees, table, denominator, ds, count - 1), count - 1);
    }
  }

  /** Preferential attachment: after the sweep, an older node u has an edge
      into the newcomer exactly when u's draw succeeded against p at u's
      in-degree, and every added edge ends at the newcomer. */
  lemma SweepEdges(before: Graph, newNode: Node, degrees: seq<nat>, table: seq<nat>, denominator: nat,
                   ds: seq<Draw>)
    requires before.nodeCount == newNode == |before.labels| && newNode < |NodeLabels|
    requires forall e | e in before.edges :: e.1 < newNode
    requires newNode <= |ds| && newNode == |degrees|
    requires forall v | 0 <= v < newNode :: degrees[v] < |table|
    ensures var h := SweepGraph(before, newNode, degrees, table, denominator, ds, newNode);
      && before.edges <= h.edges
      && (forall e | e in h.edges - before.edges :: e.0 < newNode && e.1 == newNode)
      && (forall u: Node | u < newNode ::
            (u, newNode) in h.edges <==> Attaches(ds[u], table[degrees[u]], denominator))
  {
    SweepGraphIsAfterSweep(before, newNode, degrees, table, denominator, ds, newNode);
  }

  /** The sweep leaves the in-degree of every snapshot node as it was. */
  lemma SweepKeepsDegrees(before: Graph, newNode: Node, parents: set<Node>, v: Node)
    requires before.nodeCount == newNode == |before.labels| && newNode < |NodeLabels|
    requires v < newNode
    ensures InDegree(AfterSweep(before, newNode, parents).edges, v) == InDegree(before.edges, v)
  {
    InDegreesKept(before.edges, AfterSweep(before, newNode, parents).edges, newNode);
  }

  /** Mid-sweep, `p[G.in_degree(node)]` still reads the in-degree the table
      was built from. */
  lemma SweepReads(before: Graph, newNode: Node, degrees: seq<nat>, table: seq<nat>, denominator: nat,
                   ds: seq<Draw>, node: nat)
    requires before.nodeCount == newNode == |before.labels| && newNode < |NodeLabels|
    requires node < newNode == |degrees| <= |ds|
    requires forall v | 0 <= v < newNode :: degrees[v] == InDegree(before.edges, v) < |table|
    ensures InDegree(SweepGraph(before, newNode, degrees, table, denominator, ds, node).edges, node) == degrees[node]
  {
    SweepGraphIsAfterSweep(before, newNode, degrees, table, denominator, ds, node);
    SweepKeepsDegrees(before, newNode, Winners(degrees, table, denominator, ds, node), node);
  }

  /** Where the first sweep from draw `pos` on in which some draw succeeds
      starts, each sweep taking one draw per snapshot node; None when the
      draws run out first (hierarchy-in-prices-model.py:55-61). */
  function FirstSweep(degrees: seq<nat>, table: seq<nat>, denominator: nat,
                      draws: seq<Draw>, pos: nat): (r: Option<nat>)
    requires pos <= |draws| && |degrees| > 0
    requires forall v | 0 <= v < |degrees| :: degrees[v] < |table|
    ensures r.Some? ==>
      && pos <= r.value && r.value + |degrees| <= |draws|
      && AnyAttaches(degrees, table, denominator, draws[r.value..], |degrees|)
    decreases |draws| - pos
  {
    if |draws| - pos < |degrees| then None
    else if AnyAttaches(degrees, table, denominator, draws[pos..], |degrees|) then Some(pos)
    else FirstSweep(degrees, table, denominator, draws, pos + |degrees|)
  }

  /** FirstSweep when fewer draws than snapshot nodes remain: the draws
      run out. */
  lemma FirstSweepExhausted(degrees: seq<nat>, table: seq<nat>, denominator: nat, draws: seq<Draw>, pos: nat)
    requires pos <= |draws| && |degrees| > 0
    requires forall v | 0 <= v < |degrees| :: degrees[v] < |table|
    requires |draws| - pos < |degrees|
    ensures FirstSweep(degrees, table, denominator, draws, pos).None?
  {
  }

  /** FirstSweep from a complete sweep ending at `next`: that sweep when
      some draw in it succeeds, otherwise the first successful sweep after it. */
  lemma FirstSweepNext(degrees: seq<nat>, table: seq<nat>, denominator: nat, draws: seq<Draw>,
                       pos: nat, next: nat, attached: bool)
    requires |degrees| > 0 && next == pos + |degrees| <= |draws|
    requires forall v | 0 <= v < |degrees| :: degrees[v] < |table|
    requires attached <==> AnyAttaches(degrees, table, denominator, draws[pos..], |degrees|)
    ensures attached ==> FirstSweep(degrees, table, denominator, draws, pos) == Some(pos)
    ensures !attached ==>
      FirstSweep(degrees, table, denominator, draws, pos) == FirstSweep(degrees, table, denominator, draws, next)
  {
  }

  /** A sweep with at least one success extends the growth invariant. */
  lemma {:induction false} AfterSweepGrown(before: Graph, newNode: nat, m: nat, parents: set<Node>)
    requires GrownTo(before, newNode, m) && m <= newNode < |NodeLabels|
    requires parents != {} && forall u | u in parents :: u < newNode
    ensures GrownTo(AfterSweep(before, newNode, parents), newNode + 1, m)
  {
    var h := AfterSweep(before, newNode, parents);
    assert h.labels == NodeLabels[..newNode + 1];
    InDegreesKept(before.edges, h.edges, newNode);
    var u :| u in parents;
    InDegreePositive(h.edges, u, newNode);
  }

  /** The shape the growth functions need: `count` nodes, each labelled. */
  ghost predicate Shaped(g: Graph, count: nat) {
    count <= |NodeLabels| && g.nodeCount == count == |g.labels|
  }

  /** Growth of newNode from draw `pos` on: the table is built from the
      in-degrees of the current graph, then the first sweep with a success
      adds the newcomer and its edges.  Returns the new graph and the
      position of the next unused draw (hierarchy-in-prices-model.py:33-61). */
  function GrowStep(g: Graph, newNode: nat, m: nat, draws: seq<Draw>, pos: nat): (r: Option<(Graph, nat)>)
    requires Shaped(g, newNode) && 1 <= newNode < |NodeLabels| && pos <= |draws|
    ensures r.Some? ==> Shaped(r.value.0, newNode + 1) && pos < r.value.1 <= |draws|
  {
    var degrees := InDegrees(g.edges, newNode);
    TableCovers(degrees);
    var table := AttachTable(degrees);
    var denominator := AttachDenominator(newNode, m);
    match FirstSweep(degrees, table, denominator, draws, pos)
    case None => None
    case Some(start) =>
      Some((SweepGraph(g, newNode, degrees, table, denominator, draws[start..], newNode), start + newNode))
  }

  /** A growth step keeps the growth invariant, with one node more. */
  lemma GrowStepGrown(g: Graph, newNode: nat, m: nat, draws: seq<Draw>, pos: nat)
    requires GrownTo(g, newNode, m) && 1 <= m <= newNode < |NodeLabels| && pos <= |draws|
    requires GrowStep(g, newNode, m, draws, pos).Some?
    ensures GrownTo(GrowStep(g, newNode, m, draws, pos).value.0, newNode + 1, m)
  {
    var degrees := InDegrees(g.edges, newNode);
    TableCovers(degrees);
    var table := AttachTable(degrees);
    var denominator := AttachDenominator(newNode, m);
    var start := FirstSweep(degrees, table, denominator, draws, pos).value;
    AnyAttachesIffWinners(degrees, table, denominator, draws[start..], newNode);
    SweepGraphIsAfterSweep(g, newNode, degrees, table, denominator, draws[start..], newNode);
    AfterSweepGrown(g, newNode, m, Winners(degrees, table, denominator, draws[start..], newNode));
  }

  /** Growth of nodes newNode .. n-1 from draw `pos` on. */
  function GrowFrom(g: Graph, newNode: nat, n: nat, m: nat, draws: seq<Draw>, pos: nat): (r: Result<Graph, GenError>)
    requires Shaped(g, newNode) && 1 <= newNode <= n <= |NodeLabels| && pos <= |draws|
    ensures r.Ok? ==> Shaped(r.value, n)
    ensures r.Err? ==> r.error.DrawsExhausted? && newNode <= r.error.node < n
    decreases n - newNode
  {
    if newNode == n then Ok(g)
    else
      match GrowStep(g, newNode, m, draws, pos)
      case None => Err(DrawsExhausted(newNode))
      case Some((h, next)) => GrowFrom(h, newNode + 1, n, m, draws, next)
  }

  /** GrowFrom after one growth step: the error when that step runs out of
      draws, otherwise growth of the remaining nodes from where it ended. */
  lemma GrowFromNext(g: Graph, newNode: nat, n: nat, m: nat, draws: seq<Draw>, pos: nat)
    requires Shaped(g, newNode) && 1 <= newNode < n <= |NodeLabels| && pos <= |draws|
    ensures GrowStep(g, newNode, m, draws, pos).None? ==>
      GrowFrom(g, newNode, n, m, draws, pos) == Err(DrawsExhausted(newNode))
    ensures GrowStep(g, newNode, m, draws, pos).Some? ==>
      var step := GrowStep(g, newNode, m, draws, pos).value;
      GrowFrom(g, newNode, n, m, draws, pos) == GrowFrom(step.0, newNode + 1, n, m, draws, step.1)
  {
  }

  /** Every graph growth produces satisfies the growth invariant. */
  lemma {:induction false} GrowFromGrown(g: Graph, newNode: nat, n: nat, m: nat, draws: seq<Draw>, pos: nat)
    requires GrownTo(g, newNode, m) && 1 <= m <= newNode <= n <= |NodeLabels| && pos <= |draws|
    ensures GrowFrom(g, newNode, n, m, draws, pos).Ok? ==> GrownTo(GrowFrom(g, newNode, n, m, draws, pos).value, n, m)
    decreases n - newNode
  {
    if newNode < n {
      GrowFromNext(g, newNode, n, m, draws, pos);
      if GrowStep(g, newNode, m, draws, pos).Some? {
        GrowStepGrown(g, newNode, m, draws, pos);
        var step := GrowStep(g, newNode, m, draws, pos).value;
        GrowFromGrown(step.0, newNode + 1, n, m, draws, step.1);
      }
    }
  }

  /** prices_model as a function of its parameters and of the values its
      calls of r.random() return. */
  function Grow(n: int, m: int, draws: seq<Draw>): (r: Result<Graph, GenError>)
    ensures CheckParameters(n, m).Some? ==> r == Err(InvalidParameter(CheckParameters(n, m).value))
    ensures CheckParameters(n, m).None? && r.Err? ==> r.error.DrawsExhausted? && m <= r.error.node < n
    ensures r.Ok? ==> CheckParameters(n, m).None? && GrownTo(r.value, n, m)
  {
    match CheckParameters(n, m)
    case Some(reason) => Err(InvalidParameter(reason))
    case None =>
      SeedGrown(m);
      GrowFromGrown(SeedGraph(m), m, n, m, draws, 0);
      GrowFrom(SeedGraph(m), m, n, m, draws, 0)
  }

  /** With every draw 0 the first sweep already succeeds, since node 0's
      entry of p is positive: the step consumes exactly one sweep. */
  lemma ZeroDrawStep(g: Graph, newNode: nat, m: nat, draws: seq<Draw>, pos: nat)
    requires Shaped(g, newNode) && 1 <= newNode < |NodeLabels|
    requires pos + newNode <= |draws|
    requires forall i | 0 <= i < |draws| :: draws[i] == 0
    ensures GrowStep(g, newNode, m, draws, pos).Some?
    ensures GrowStep(g, newNode, m, draws, pos).value.1 == pos + newNode
  {
    var degrees := InDegrees(g.edges, newNode);
    var table := AttachTable(degrees);
    var denominator := AttachDenominator(newNode, m);
    TableCovers(degrees);
    assert draws[pos..][0] == 0;
    assert 0 in Winners(degrees, table, denominator, draws[pos..], newNode);
    AnyAttachesIffWinners(degrees, table, denominator, draws[pos..], newNode);
    FirstSweepNext(degrees, table, denominator, draws, pos, pos + newNode, true);
  }

  /** One more node needs n more draws. */
  lemma MulStep(k: nat, n: nat)
    ensures (k + 1) * n == k * n + n
  {
  }

  /** With every draw 0, n draws per remaining node are enough. */
  lemma {:induction false} GrowFromZeroDraws(g: Graph, newNode: nat, n: nat, m: nat, draws: seq<Draw>, pos: nat)
    requires Shaped(g, newNode) && 1 <= newNode <= n <= |NodeLabels| && pos <= |draws|
    requires forall i | 0 <= i < |draws| :: draws[i] == 0
    requires |draws| - pos >= (n - newNode) * n
    ensures GrowFrom(g, newNode, n, m, draws, pos).Ok?
    decreases n - newNode
  {
    if newNode < n {
      var left := n - newNode;
      MulStep(left - 1, n);
      ZeroDrawStep(g, newNode, m, draws, pos);
      GrowFromNext(g, newNode, n, m, draws, pos);
      var step := GrowStep(g, newNode, m, draws, pos).value;
      GrowFromZeroDraws(step.0, newNode + 1, n, m, draws, step.1);
    }
  }

  /** Valid parameters always yield a graph once enough draws succeed: all
      draws 0, n * n of them, suffice. */
  lemma GrowSucceeds(n: int, m: int, draws: seq<Draw>)
    requires CheckParameters(n, m).None?
    requires forall i | 0 <= i < |draws| :: draws[i] == 0
    requires |draws| >= n * n
    ensures Grow(n, m, draws).Ok?
  {
    SeedGrown(m);
    GrowFromZeroDraws(SeedGraph(m), m, n, m, draws, 0);
  }

  /** One sweep over the snapshot of the existing nodes, in ascending order
      (hierarchy-in-prices-model.py:57-60).  `exhausted` reports that fewer
      than one draw per node was left. */
  method Sweep(before: Graph, newNode: Node, degrees: seq<nat>, table: seq<nat>, denominator: nat,
               draws: seq<Draw>, pos: nat) returns (g: Graph, next: nat, attached: bool, exhausted: bool)
    requires before.nodeCount == newNode == |before.labels| && newNode < |NodeLabels|
    requires |degrees| == newNode
    requires forall v | 0 <= v < newNode :: degrees[v] == InDegree(before.edges, v) < |table|
    requires pos <= |draws|
    ensures exhausted <==> |draws| - pos < newNode
    ensures !exhausted ==> next == pos + newNode
    ensures !exhausted ==>
      g == SweepGraph(before, newNode, degrees, table, denominator, draws[pos..], newNode)
    ensures !exhausted ==>
      (attached <==> AnyAttaches(degrees, table, denominator, draws[pos..], newNode))
    ensures !attached ==> g == before
  {
    g, next, attached := before, pos, false;
    if |draws| - pos < newNode {
      return g, next, attached, true;
    }
    for node := 0 to newNode
      invariant next == pos + node
      invariant g == SweepGraph(before, newNode, degrees, table, denominator, draws[pos..], node)
      invariant attached <==> AnyAttaches(degrees, table, denominator, draws[pos..], node)
      invariant !attached ==> g == before
    {
      SweepReads(before, newNode, degrees, table, denominator, draws[pos..], node);
      var d := draws[next];
      next := next + 1;
      var k := InDegree(g.edges, node);
      if Attaches(d, table[k], denominator) {
        g := AddNode(g, newNode, NodeLabels[newNode]);
        g := AddEdge(g, (node, newNode));
        attached := true;
      }
    }
    exhausted := false;
  }

  /** The growth step of newNode (hierarchy-in-prices-model.py:33-61):
      build the table from the current in-degrees, then sweep until a sweep
      attaches.  None when the draws run out first. */
  method GrowNode(g: Graph, newNode: nat, m: nat, draws: seq<Draw>, pos: nat) returns (r: Option<(Graph, nat)>)
    requires Shaped(g, newNode) && 1 <= newNode < |NodeLabels| && pos <= |draws|
    ensures r == GrowStep(g, newNode, m, draws, pos)
  {
    var degrees := InDegrees(g.edges, g.nodeCount);
    var table := AttachTable(degrees);
    var denominator := AttachDenominator(g.nodeCount, m);
    TableCovers(degrees);
    assert |degrees| == newNode;
    var cursor: nat := pos;
    var attached := false;
    var h := g;
    ghost var start: nat := pos;
    while !attached
      invariant pos <= cursor <= |draws|
      invariant !attached ==> h == g
      invariant !attached ==>
        FirstSweep(degrees, table, denominator, draws, cursor) ==
        FirstSweep(degrees, table, denominator, draws, pos)
      invariant attached ==>
        FirstSweep(degrees, table, denominator, draws, pos) == Some(start) && cursor == start + newNode
      invariant attached ==>
        h == SweepGraph(g, newNode, degrees, table, denominator, draws[start..], newNode)
      decreases |draws| - cursor
    {
      start := cursor;
      var exhausted;
      h, cursor, attached, exhausted := Sweep(g, newNode, degrees, table, denominator, draws, cursor);
      if exhausted {
        FirstSweepExhausted(degrees, table, denominator, draws, start);
        return None;
      }
      FirstSweepNext(degrees, table, denominator, draws, start, cursor, attached);
    }
    return Some((h, cursor));
  }

  /** prices_model (hierarchy-in-prices-model.py:15-63).  It computes Grow:
      an error when the parameters are rejected or when `draws` runs out
      before every node has attached, otherwise the grown graph. */
  method PricesModel(n: int, m: int, draws: seq<Draw>) returns (res: Result<Graph, GenError>)
    ensures res == Grow(n, m, draws)
    ensures CheckParameters(n, m).Some? ==>
      res == Err(InvalidParameter(CheckParameters(n, m).value))
    ensures CheckParameters(n, m).None? && res.Err? ==> res.error.DrawsExhausted?
    ensures res.Ok? ==> CheckParameters(n, m).None? && GrownTo(res.value, n, m)
  {
    var invalid := CheckParameters(n, m);
    if invalid.Some? {
      return Err(InvalidParameter(invalid.value));
    }
    var g := SeedGraph(m);
    SeedGrown(m);
    var pos: nat := 0;
    for newNode := m to n
      invariant Shaped(g, newNode)
      invariant pos <= |draws|
      invariant GrowFrom(g, newNode, n, m, draws, pos) == Grow(n, m, draws)
    {
      var step := GrowNode(g, newNode, m, draws, pos);
      GrowFromNext(g, newNode, n, m, draws, pos);
      if step.None? {
        return Err(DrawsExhausted(newNode));
      }
      g, pos := step.value.0, step.value.1;
    }
    return Ok(g);
  }

  /** Every edge joins two existing nodes and every node is labelled. */
  lemma GrownWellFormed(g: Graph, count: nat, m: nat)
    requires GrownTo(g, count, m)
    ensures WellFormed(g)
  {
  }

  /** There are no self-loops: every edge leaves an older node. */
  lemma NoSelfLoops(g: Graph, count: nat, m: nat)
    requires GrownTo(g, count, m)
    ensures forall e | e in g.edges :: e.0 != e.1
  {
  }

  /** p is a path of at least one edge. */
  ghost predicate IsPath(edges: set<Edge>, p: seq<Node>) {
    |p| >= 2 && forall i | 0 <= i < |p| - 1 :: (p[i], p[i + 1]) in edges
  }

  /** Every path climbs: it ends at a node strictly newer than where it
      started, so no path returns to its start and the graph is acyclic. */
  lemma {:induction false} PathsClimb(g: Graph, count: nat, m: nat, p: seq<Node>)
    requires GrownTo(g, count, m)
    requires IsPath(g.edges, p)
    ensures p[0] < p[|p| - 1]
    decreases |p|
  {
    assert (p[0], p[1]) in g.edges;
    if |p| > 2 {
      assert IsPath(g.edges, p[1..]) by {
        forall i | 0 <= i < |p[1..]| - 1
          ensures (p[1..][i], p[1..][i + 1]) in g.edges
        {
          assert (p[i + 1], p[i + 2]) in g.edges;
        }
      }
      PathsClimb(g, count, m, p[1..]);
    }
  }

  /** The ranking that gives every node its creation index. */
  function CreationOrder(count: nat): (r: Ranking.Rank)
    ensures forall v: Node :: v in r <==> v < count
  {
    map v | v in NodesBelow(count) :: v
  }

  /** Creation order is a topological order: ranking each node by its index
      is a candidate of min_agony_ranking and has agony 0. */
  lemma CreationOrderHasNoAgony(g: Graph, count: nat, m: nat)
    requires GrownTo(g, count, m)
    ensures Ranking.IsCandidate(g, CreationOrder(count))
    ensures Ranking.Covers(g.edges, CreationOrder(count))
    ensures Ranking.AgonyOf(g.edges, CreationOrder(count)) == 0
  {
    var r := CreationOrder(count);
    assert forall e | e in g.edges :: Ranking.Forward(r, e);
    Ranking.AgonyZeroIff(g.edges, r);
  }
}
