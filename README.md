# Agony ranking and Price's-model growth

This project models the two algorithms of a small hierarchy-in-networks
study and proves their properties:

- **Agony** (`ranking.py`).
  - `compute_agony` sums, over the edges (u, v) of a directed graph, the cost
    max(0, r(u) - r(v) + 1) of a ranking r.
  - `min_agony_ranking` scores random rankings, at most 1,000,000 of them.
    It keeps the best one seen and stops early at agony 0.
- **Price's model** (`prices_model` in `hierarchy-in-prices-model.py`).
  - It checks its parameters and seeds m nodes with no edges.
  - Each later node gets in-edges by in-degree-weighted preferential
    attachment. The table (k + 1) * p_k / (m + 1) is rebuilt from the
    in-degree histogram before each arrival.

Modules:

- `Wrappers` (`wrappers.dfy`): the `Option` and `Result` values both algorithms return.
- `Graphs` (`graphs.dfy`): the graph value and its networkx operations.
  - Nodes 0 .. nodeCount-1, a label per node, and a set of edges.
  - `add_node` and `add_edge`.
  - In-degrees.
- `DegreeTable` (`degree_table.dfy`): the in-degree histogram and the
  attachment table.
  - Every entry is held as the exact numerator (k + 1) * count_k over the
    common denominator N * (m + 1).
- `Ranking` (`ranking.dfy`): the agony of a ranking and both search
  operations.
  - `ComputeAgony` is a loop over the edge set. It is proved against
    `AgonyOf`, a sum over the edge set in an arbitrary order.
  - `MinAgonyRanking` is the capped search loop. It is proved against the
    score sequence `Scores`, the stopping point `Scored` and the running
    minimum `ArgMin`. Its `attempts` output is proved equal to `Scored`,
    so the early exit at agony 0 is part of its contract.
- `PricesModel` (`prices_model.dfy`): the generator.
  - `Grow` is the generator as a function of its parameters and draws. It
    is built from `SweepGraph` (one pass over the snapshot), `FirstSweep`
    (the first pass with a success), `GrowStep` (one newcomer) and
    `GrowFrom` (all newcomers).
  - The methods `Sweep`, `GrowNode` and `PricesModel` keep the source's
    three nested loops. Each is proved equal to its function.
  - `SweepEdges` states the preferential-attachment rule. `GrowFromGrown`
    proves the growth invariant `GrownTo` for every result.
  - `GrowSucceeds` shows that valid parameters yield a graph when every
    draw is 0 and at least n * n draws are supplied.
  - Lemmas derive acyclicity and the zero-agony creation order from the
    invariant.

Randomness is supplied as input:

- `min_agony_ranking` receives the sequence of rankings its `r.choice` calls
  would build.
- `prices_model` receives the sequence of values its `r.random()` calls
  would return. Each is a 53-bit integer d standing for d / 2^53. A draw
  succeeds when d * N * (m + 1) < (k + 1) * count_k * 2^53, the
  exact-arithmetic form of `r.random() < p[k]`.

The early exit of `min_agony_ranking` (`break` on agony 0) is written as a
loop flag. The loop stops after the same attempt.

## Model

| member | source | states |
|---|---|---|
| Graphs.AddNode | hierarchy-in-prices-model.py:59 | adding a node at the next index appends it with its label; re-adding an existing node only sets its label; edges never change |
| Graphs.AddEdge | hierarchy-in-prices-model.py:60 | the edge set gains exactly the new edge; nodes and labels are untouched |
| Graphs.InDegrees | hierarchy-in-prices-model.py:44 | one entry per existing node, in node order, each being that node's in-degree |
| Graphs.InDegreePositive | hierarchy-in-prices-model.py:60 | a node with an incoming edge has in-degree at least 1 |
| Graphs.InDegreeZero | hierarchy-in-prices-model.py:32 | a node no edge points to has in-degree 0 |
| Graphs.InDegreeOther | hierarchy-in-prices-model.py:54-60 | edges that all end at the newcomer leave every other node's in-degree unchanged |
| DegreeTable.MaxOf | hierarchy-in-prices-model.py:46 | max_degree bounds every in-degree and is attained by some node |
| DegreeTable.Histogram | hierarchy-in-prices-model.py:45-49 | one entry for each degree 0 .. max_degree, holding the number of nodes of that degree (0 for absent degrees) |
| DegreeTable.AttachTable | hierarchy-in-prices-model.py:49-51 | the entry for degree k is (k + 1) * count_k, the numerator of p[k] over N * (m + 1) |
| DegreeTable.HistogramTotal | hierarchy-in-prices-model.py:49 | the histogram counts add up to the node count N, so the p_k sum to 1 |
| DegreeTable.CountMember | hierarchy-in-prices-model.py:45 | the in-degree of every existing node is counted at least once |
| DegreeTable.TableEntryPositive | hierarchy-in-prices-model.py:58 | for every existing node, its in-degree k indexes the table and p[k] is positive |
| DegreeTable.TableCovers | hierarchy-in-prices-model.py:57-58 | `p[G.in_degree(node)]` is defined and positive for every node of the snapshot |
| Ranking.EdgeAgony | ranking.py:11-14 | an edge costs 0 exactly when it is forward; a backward edge costs r(u) - r(v) + 1, at least 1 |
| Ranking.AgonyPick | ranking.py:6-15 | agony is the same whichever edge is summed first: it does not depend on edge order |
| Ranking.AgonyZeroIff | ranking.py:8-14 | agony is 0 exactly when every edge is forward |
| Ranking.BackwardEdgeBound | ranking.py:11-14 | a backward edge alone makes agony at least r(u) - r(v) + 1 >= 1 |
| Ranking.AgonyInsert | ranking.py:6-15 | adding a new edge adds exactly its own cost |
| Ranking.AgonyMonotone | ranking.py:6-15 | adding edges never decreases agony |
| Ranking.ComputeAgony | ranking.py:4-15 | the loop returns the agony sum over the edge set, a nat, and returns 0 exactly when every edge is forward; both endpoints of every edge must be ranked |
| Ranking.CandidateCovers | ranking.py:19-26 | a drawn ranking, whose keys are exactly the nodes and whose values are nodes, ranks both endpoints of every edge |
| Ranking.ScoreAt | ranking.py:26-27 | the i-th score is the agony of the i-th drawn ranking |
| Ranking.AttemptsFrom | ranking.py:25-33 | the number of attempts lies between the current attempt and the cap |
| Ranking.AttemptsFromStop | ranking.py:25-33 | resuming before the cap makes at least one more attempt; no score before the last attempt is 0; the search ends at a 0 or at the cap |
| Ranking.AttemptsStop | ranking.py:25-33 | the search makes at most `limit` attempts and at least one when any is allowed; it passes no score of 0 and stops only at a 0 or at the cap |
| Ranking.AttemptsExact | ranking.py:25-33 | a run that scored n candidates, stopping at its first 0 or at the cap, made exactly the attempts the stopping rule prescribes |
| Ranking.ArgMin | ranking.py:28-30 | the incumbent is one of the candidates scored so far |
| Ranking.ArgMinIsEarliestMinimum | ranking.py:28-30 | the incumbent has the least score so far and is the earliest with it, since only a strictly smaller score replaces it |
| Ranking.RecordsDecrease | ranking.py:28-31 | the printed improvements strictly decrease; there is one exactly when something was scored; the first is the first score and the last is the least score |
| Ranking.IncumbentStep | ranking.py:27-31 | a strictly smaller score becomes the incumbent and is appended to the printed improvements; any other score leaves everything unchanged |
| Ranking.MinAgonyRanking | ranking.py:18-35 | returns None and inf exactly when nothing is scored; otherwise returns the earliest least-agony candidate among those scored and its agony, which is no more than any scored candidate's; the printed improvements are exactly the scores that beat every earlier one, in order, so they strictly decrease and end in the returned agony; `attempts`, the number of candidates scored, equals `Scored`: at most min(1,000,000, number of candidates), at least one when any is allowed, every score before the last is positive, and the search stops only at the first 0 or at the cap |
| PricesModel.CheckParameters | hierarchy-in-prices-model.py:26-29 | m < 1 or m >= n is rejected first; otherwise n > 26 is rejected; otherwise there is no error |
| PricesModel.SeedGrown | hierarchy-in-prices-model.py:31-32 | seeding creates nodes 0 .. m-1 labelled NODE_LABLES[i] with no edges, which satisfies the growth invariant |
| PricesModel.AttachesIffWeight | hierarchy-in-prices-model.py:58 | some draw succeeds exactly when p[k] is positive; with p[k] = 0 no draw succeeds |
| PricesModel.InDegreesKept | hierarchy-in-prices-model.py:54-60 | during a growth step the in-degree of every node other than the newcomer is unchanged, so `p[G.in_degree(node)]` reads the degree the table was built from |
| PricesModel.Winners | hierarchy-in-prices-model.py:57-58 | a snapshot node wins exactly when its draw is below p at its in-degree |
| PricesModel.AnyAttachesIffWinners | hierarchy-in-prices-model.py:55-61 | `attached` is set exactly when some node of the sweep won |
| PricesModel.SweepGraph | hierarchy-in-prices-model.py:57-60 | the newcomer exists, with its label, exactly when some draw of the sweep succeeded |
| PricesModel.SweepAttach | hierarchy-in-prices-model.py:59-60 | add_node then add_edge on a success adds exactly that node's edge to the newcomer; re-adding the newcomer changes nothing |
| PricesModel.SweepGraphIsAfterSweep | hierarchy-in-prices-model.py:57-60 | the graph the loop builds is the old graph plus the newcomer and one edge from each winner, or the old graph when nobody won |
| PricesModel.SweepEdges | hierarchy-in-prices-model.py:57-60 | preferential attachment: an older node gets an edge to the newcomer exactly when its draw is below p at its in-degree; every added edge goes from an older node to the newcomer; one sweep can add several |
| PricesModel.SweepKeepsDegrees | hierarchy-in-prices-model.py:58-60 | edges added into the newcomer leave every older node's in-degree unchanged |
| PricesModel.SweepReads | hierarchy-in-prices-model.py:58 | mid-sweep, `G.in_degree(node)` is still the in-degree the table was built from |
| PricesModel.FirstSweep | hierarchy-in-prices-model.py:55-61 | the retry loop stops at a whole sweep, within the draws, in which some draw succeeded |
| PricesModel.FirstSweepExhausted | hierarchy-in-prices-model.py:55-61 | with fewer draws left than nodes, no further sweep can finish |
| PricesModel.FirstSweepNext | hierarchy-in-prices-model.py:55-61 | a sweep with a success ends the retry loop; a sweep without one leads to the next sweep |
| PricesModel.AfterSweepGrown | hierarchy-in-prices-model.py:33-61 | a sweep with at least one success extends the growth invariant by one node |
| PricesModel.GrowStep | hierarchy-in-prices-model.py:33-61 | one arrival: table from the current in-degrees, then the first successful sweep; it adds exactly one node and uses at least one draw |
| PricesModel.GrowStepGrown | hierarchy-in-prices-model.py:33-61 | one arrival keeps the growth invariant: labels, older-to-newer edges, seeds without in-edges, later nodes with at least one |
| PricesModel.GrowFrom | hierarchy-in-prices-model.py:33-61 | the remaining arrivals yield exactly n nodes, or the exhausted-draws error naming a node that was still to arrive |
| PricesModel.GrowFromNext | hierarchy-in-prices-model.py:33-61 | the arrivals stop at the first one whose draws run out, otherwise continue after it |
| PricesModel.GrowFromGrown | hierarchy-in-prices-model.py:31-63 | every graph the arrivals produce satisfies the growth invariant |
| PricesModel.Grow | hierarchy-in-prices-model.py:15-63 | invalid parameters give the corresponding error; otherwise the result is the graph of n nodes satisfying the growth invariant or an exhausted-draws error for a node m .. n-1 |
| PricesModel.ZeroDrawStep | hierarchy-in-prices-model.py:55-61 | when every draw is 0 the first sweep succeeds, so an arrival takes exactly one sweep |
| PricesModel.GrowFromZeroDraws | hierarchy-in-prices-model.py:33-61 | when every draw is 0, n draws per remaining arrival are enough for all of them to succeed |
| PricesModel.GrowSucceeds | hierarchy-in-prices-model.py:15-63 | valid parameters always yield a graph when enough draws succeed: n * n zero draws suffice |
| PricesModel.Sweep | hierarchy-in-prices-model.py:57-61 | the for loop builds exactly `SweepGraph` and sets `attached` exactly when a draw succeeded; with no success the graph is unchanged |
| PricesModel.GrowNode | hierarchy-in-prices-model.py:44-61 | the `while not attached` loop computes exactly `GrowStep` |
| PricesModel.PricesModel | hierarchy-in-prices-model.py:15-63 | returns exactly `Grow(n, m, draws)`, hence the corresponding error for invalid parameters and otherwise the grown graph or an exhausted-draws error |
| PricesModel.GrownWellFormed | hierarchy-in-prices-model.py:31-63 | the generated graph is well formed: every edge joins existing nodes and every node is labelled |
| PricesModel.NoSelfLoops | hierarchy-in-prices-model.py:54-60 | no edge of the generated graph is a self-loop |
| PricesModel.PathsClimb | hierarchy-in-prices-model.py:54-60 | every path of the generated graph ends at a newer node than it starts from, so the graph is acyclic |
| PricesModel.CreationOrderHasNoAgony | hierarchy-in-prices-model.py:33-60 | ranking each node by its creation index is a candidate ranking of the search, and its agony is 0 |

## Left out

- `visualize_graph` and `main` (hierarchy-in-prices-model.py:66-160): drawing, file output, argument parsing, timing and the trial loop are I/O and driver code.
- Random number generation.
  - `r.choice` and `r.random()` become the input sequences `candidates` and `draws`.
  - Nothing is said about their distributions.
- Floating point.
  - p_k and p[k] are kept as exact fractions over N * (m + 1).
  - The rounding of the two float divisions in the source, and of the comparison with `r.random()`, is not modelled.
- `logger.debug` output is left out. The `print` of each improvement becomes the `improvements` output of `MinAgonyRanking`.
- networkx internals.
  - The graph is a node count, a label sequence and an edge set over nodes 0 .. n-1.
  - Parallel edges cannot be represented, so "no parallel edges" holds by construction rather than as a lemma.
- Iteration order.
  - The edge set is summed in an arbitrary order (`AgonyPick` shows the order is irrelevant).
  - The snapshot `set(G.nodes())` is swept in ascending node order.
- Ranking.MinAgonyRanking: the loop runs at most min(1,000,000, |candidates|) times.
  - When fewer candidates are supplied than the cap, the search ends when they run out.
  - The source instead always has a further draw.
- Ranking.MinAgonyRanking: `nodes.reverse()` (ranking.py:20) is not modelled. It only affects which rankings `r.choice` produces, and those are an input here.
- Ranking.ComputeAgony: a ranking that lacks an edge endpoint is a precondition violation. The source raises a lookup error.
- PricesModel.PricesModel: the retry loop `while not attached` (hierarchy-in-prices-model.py:56) has no bound in the source.
  - Here each draw is consumed from a finite sequence.
  - When the sequence runs out the result is `DrawsExhausted`, where the source would keep drawing.
- PricesModel.PricesModel: the default `m=2` (hierarchy-in-prices-model.py:15) is not modelled. Callers pass m explicitly.
