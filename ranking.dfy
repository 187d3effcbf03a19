/** Agony of a ranking and the capped random search for a low-agony ranking
    (ranking.py).

    A ranking maps nodes to integer ranks.  An edge (u, v) is forward when
    r(u) < r(v) and backward otherwise; a backward edge costs
    r(u) - r(v) + 1, a forward edge nothing.  The random draws of the search
    (one r.choice per node per attempt) are supplied as the sequence of
    candidate rankings they produce. */
module Ranking {
  import opened Wrappers
  import opened Graphs

  type Rank = map<Node, int>

  /** Every endpoint of every edge has a rank: compute_agony looks up both
      endpoints of each edge and a missing one is a lookup failure. */
  ghost predicate Covers(edges: set<Edge>, r: Rank) {
    forall e | e in edges :: e.0 in r && e.1 in r
  }

  predicate Forward(r: Rank, e: Edge)
    requires e.0 in r && e.1 in r
  {
    r[e.0] < r[e.1]
  }

  /** max(0, r(u) - r(v) + 1), the cost of one edge (ranking.py:12-14). */
  function EdgeAgony(r: Rank, e: Edge): (a: nat)
    requires e.0 in r && e.1 in r
    ensures a == 0 <==> Forward(r, e)
    ensures !Forward(r, e) ==> a >= 1 && r[e.0] == r[e.1] + a - 1
  {
    if r[e.0] - r[e.1] + 1 > 0 then r[e.0] - r[e.1] + 1 else 0
  }

  /** The agony of a ranking: the sum of EdgeAgony over the edge set, taken
      in an arbitrary order (AgonyPick shows that the order does not matter). */
  ghost function AgonyOf(edges: set<Edge>, r: Rank): (total: nat)
    requires Covers(edges, r)
    decreases edges
  {
    if edges == {} then 0
    else
      var e :| e in edges;
      EdgeAgony(r, e) + AgonyOf(edges - {e}, r)
  }

  /** Any edge may be summed first: agony does not depend on the order in
      which the edges are visited. */
  lemma {:induction false} AgonyPick(edges: set<Edge>, r: Rank, e: Edge)
    requires Covers(edges, r)
    requires e in edges
    ensures AgonyOf(edges, r) == EdgeAgony(r, e) + AgonyOf(edges - {e}, r)
    decreases edges
  {
    var x :| x in edges && AgonyOf(edges, r) == EdgeAgony(r, x) + AgonyOf(edges - {x}, r);
    if x != e {
      AgonyPick(edges - {x}, r, e);
      AgonyPick(edges - {e}, r, x);
      assert edges - {x} - {e} == edges - {e} - {x};
    }
  }

  /** Agony is zero exactly when every edge is forward, i.e. when the
      ranking orders the graph topologically. */
  lemma {:induction false} AgonyZeroIff(edges: set<Edge>, r: Rank)
    requires Covers(edges, r)
    ensures AgonyOf(edges, r) == 0 <==> forall e | e in edges :: Forward(r, e)
    decreases edges
  {
    if edges != {} {
      var e :| e in edges;
      AgonyPick(edges, r, e);
      AgonyZeroIff(edges - {e}, r);
    }
  }

  /** A backward edge alone already costs r(u) - r(v) + 1 >= 1. */
  lemma BackwardEdgeBound(edges: set<Edge>, r: Rank, e: Edge)
    requires Covers(edges, r)
    requires e in edges && !Forward(r, e)
    ensures AgonyOf(edges, r) >= r[e.0] - r[e.1] + 1 >= 1
  {
    AgonyPick(edges, r, e);
  }

  /** Adding a new edge adds exactly its own cost. */
  lemma AgonyInsert(edges: set<Edge>, r: Rank, e: Edge)
    requires Covers(edges + {e}, r)
    requires e !in edges
    ensures AgonyOf(edges + {e}, r) == AgonyOf(edges, r) + EdgeAgony(r, e)
  {
    AgonyPick(edges + {e}, r, e);
    assert edges + {e} - {e} == edges;
  }

  /** Adding edges never decreases agony. */
  lemma {:induction false} AgonyMonotone(small: set<Edge>, large: set<Edge>, r: Rank)
    requires small <= large
    requires Covers(large, r)
    ensures AgonyOf(small, r) <= AgonyOf(large, r)
    decreases large
  {
    if large != {} {
      var e :| e in large;
      AgonyPick(large, r, e);
      if e in small {
        AgonyPick(small, r, e);
        AgonyMonotone(small - {e}, large - {e}, r);
      } else {
        AgonyMonotone(small, large - {e}, r);
      }
    }
  }

  /** compute_agony (ranking.py:4-15): accumulates the edge costs while
      visiting the edges in whatever order the graph yields them. */
  method ComputeAgony(g: Graph, r: Rank) returns (agony: nat)
    requires Covers(g.edges, r)
    ensures agony == AgonyOf(g.edges, r)
    ensures agony == 0 <==> forall e | e in g.edges :: Forward(r, e)
  {
    agony := 0;
    var remaining := g.edges;
    while remaining != {}
      invariant remaining <= g.edges
      invariant agony + AgonyOf(remaining, r) == AgonyOf(g.edges, r)
      decreases remaining
    {
      var e :| e in remaining;
      AgonyPick(remaining, r, e);
      agony := agony + EdgeAgony(r, e);
      remaining := remaining - {e};
    }
    AgonyZeroIff(g.edges, r);
  }

  /** The attempt cap of min_agony_ranking (ranking.py:25). */
  const MaxAttempts: nat := 1_000_000

  /** A ranking min_agony_ranking can draw: every node of the graph gets a
      rank, and every rank is itself one of the graph's nodes
      (ranking.py:19-20, 26). */
  ghost predicate IsCandidate(g: Graph, r: Rank) {
    (forall v: Node :: v in r <==> v < g.nodeCount) &&
    (forall v | v in r :: 0 <= r[v] < g.nodeCount)
  }

  /** Every draw of the search is a candidate of the graph. */
  ghost predicate AllCandidates(g: Graph, candidates: seq<Rank>) {
    forall i | 0 <= i < |candidates| :: IsCandidate(g, candidates[i])
  }

  /** A candidate ranks both endpoints of every edge of a well-formed graph,
      so compute_agony can score it. */
  lemma CandidateCovers(g: Graph, r: Rank)
    requires WellFormed(g) && IsCandidate(g, r)
    ensures Covers(g.edges, r)
  {
  }

  /** The running minimum: float('inf') before the first attempt, then an
      agony value. */
  datatype Score = Infinity | Finite(value: nat)

  /** The agony of one drawn candidate.  The else branch stands for the
      KeyError compute_agony would raise (ranking.py:12-13) on a ranking
      that leaves an edge endpoint unranked; it cannot be reached from
      MinAgonyRanking, whose AllCandidates precondition gives Covers for
      every draw (CandidateCovers), so its value 0 is never observed. */
  ghost function Cost(g: Graph, r: Rank): (c: nat) {
    if Covers(g.edges, r) then AgonyOf(g.edges, r) else 0
  }

  /** The agony of each candidate, in draw order. */
  ghost function Scores(g: Graph, candidates: seq<Rank>): (s: seq<nat>)
    ensures |s| == |candidates|
  {
    if |candidates| == 0 then []
    else Scores(g, candidates[..|candidates| - 1]) + [Cost(g, candidates[|candidates| - 1])]
  }

  /** The i-th score is the agony compute_agony returns for the i-th draw. */
  lemma {:induction false} ScoreAt(g: Graph, candidates: seq<Rank>, i: nat)
    requires i < |candidates| && Covers(g.edges, candidates[i])
    ensures Scores(g, candidates)[i] == AgonyOf(g.edges, candidates[i])
    decreases |candidates|
  {
    if i < |candidates| - 1 {
      ScoreAt(g, candidates[..|candidates| - 1], i);
    }
  }

  /** How many scores the search computes when it resumes at attempt i:
      it stops right after the first score 0 (ranking.py:28-33), and at
      the latest after `limit` attempts (ranking.py:25). */
  function AttemptsFrom(scores: seq<nat>, limit: nat, i: nat): (k: nat)
    requires i <= limit <= |scores|
    ensures i <= k <= limit
    decreases limit - i
  {
    if i == limit then limit
    else if scores[i] == 0 then i + 1
    else AttemptsFrom(scores, limit, i + 1)
  }

  function Attempts(scores: seq<nat>, limit: nat): (k: nat)
    requires limit <= |scores|
  {
    AttemptsFrom(scores, limit, 0)
  }

  lemma {:induction false} AttemptsFromStop(scores: seq<nat>, limit: nat, i: nat)
    requires i <= limit <= |scores|
    ensures var k := AttemptsFrom(scores, limit, i);
      && (i < limit ==> i < k)
      && (forall j | i <= j < k - 1 :: scores[j] > 0)
      && (k == limit || scores[k - 1] == 0)
    decreases limit - i
  {
    if i < limit && scores[i] != 0 {
      AttemptsFromStop(scores, limit, i + 1);
    }
  }

  /** The search scores at least one candidate when there is one, never
      passes a score of 0 and stops only at a 0 or at the cap. */
  lemma AttemptsStop(scores: seq<nat>, limit: nat)
    requires limit <= |scores|
    ensures var k := Attempts(scores, limit);
      && k <= limit
      && (limit > 0 ==> k > 0)
      && (forall j | 0 <= j < k - 1 :: scores[j] > 0)
      && (k == limit || scores[k - 1] == 0)
  {
    AttemptsFromStop(scores, limit, 0);
  }

  /** A search that has scored n candidates, every one positive except
      possibly the last, and stopped at a 0 or at the cap, made exactly
      AttemptsFrom(scores, limit, i) attempts from any earlier i. */
  lemma {:induction false} AttemptsExact(scores: seq<nat>, limit: nat, i: nat, n: nat)
    requires i <= n <= limit <= |scores|
    requires forall j | i <= j < n - 1 :: scores[j] > 0
    requires (i < n && scores[n - 1] == 0) ||
             (n == limit && forall j | i <= j < n :: scores[j] > 0)
    ensures AttemptsFrom(scores, limit, i) == n
    decreases n - i
  {
    if i < n && !(i == n - 1 && scores[i] == 0) {
      AttemptsExact(scores, limit, i + 1, n);
    }
  }

  function Min(a: nat, b: nat): (c: nat) {
    if a <= b then a else b
  }

  /** How many candidates min_agony_ranking scores. */
  ghost function Scored(g: Graph, candidates: seq<Rank>): (k: nat)
  {
    Attempts(Scores(g, candidates), Min(MaxAttempts, |candidates|))
  }

  /** The running minimum of min_agony_ranking over the first n scores:
      the index of the incumbent, replaced only on a strictly smaller score. */
  function ArgMin(s: seq<nat>, n: nat): (w: nat)
    requires 0 < n <= |s|
    ensures w < n
  {
    if n == 1 then 0
    else
      var w := ArgMin(s, n - 1);
      if s[n - 1] < s[w] then n - 1 else w
  }

  /** Among the first n scores, w is the earliest that attains the minimum. */
  ghost predicate EarliestMinimum(s: seq<nat>, n: nat, w: nat) {
    w < n <= |s| &&
    (forall j | 0 <= j < w :: s[j] > s[w]) &&
    (forall j | 0 <= j < n :: s[w] <= s[j])
  }

  /** The incumbent is the earliest of the least scores seen so far. */
  lemma {:induction false} ArgMinIsEarliestMinimum(s: seq<nat>, n: nat)
    requires 0 < n <= |s|
    ensures EarliestMinimum(s, n, ArgMin(s, n))
  {
    if n > 1 {
      ArgMinIsEarliestMinimum(s, n - 1);
    }
  }

  ghost predicate StrictlyDecreasing(t: seq<nat>) {
    forall a, b | 0 <= a < b < |t| :: t[a] > t[b]
  }

  /** Score i beats every earlier score. */
  ghost predicate NewRecord(s: seq<nat>, i: nat)
    requires i < |s|
  {
    forall j | 0 <= j < i :: s[i] < s[j]
  }

  /** The scores among the first n that beat every earlier score, in order:
      what min_agony_ranking prints (ranking.py:28-31). */
  ghost function Records(s: seq<nat>, n: nat): (t: seq<nat>)
    requires n <= |s|
    ensures |t| <= n
  {
    if n == 0 then []
    else Records(s, n - 1) + (if NewRecord(s, n - 1) then [s[n - 1]] else [])
  }

  /** The records strictly decrease, the first score is always one, and the
      last is the least of the first n scores. */
  lemma {:induction false} RecordsDecrease(s: seq<nat>, n: nat)
    requires n <= |s|
    ensures StrictlyDecreasing(Records(s, n))
    ensures |Records(s, n)| > 0 <==> n > 0
    ensures n > 0 ==> Records(s, n)[0] == s[0]
    ensures n > 0 ==> Records(s, n)[|Records(s, n)| - 1] == s[ArgMin(s, n)]
  {
    if n > 0 {
      RecordsDecrease(s, n - 1);
      if n > 1 {
        ArgMinIsEarliestMinimum(s, n - 1);
        ArgMinIsEarliestMinimum(s, n);
      }
    }
  }

  /** The state of min_agony_ranking after scoring the first i candidates:
      none yet, or the earliest least score so far, and the records printed
      so far. */
  ghost predicate Incumbent(candidates: seq<Rank>, s: seq<nat>, i: nat,
                            best: Option<Rank>, minAgony: Score, improvements: seq<nat>)
    requires i <= |s| == |candidates|
  {
    && (best.None? <==> i == 0)
    && (minAgony.Infinity? <==> i == 0)
    && (i > 0 ==> var w := ArgMin(s, i);
          best == Some(candidates[w]) && minAgony == Finite(s[w]))
    && improvements == Records(s, i)
  }

  /** One attempt of min_agony_ranking: a strictly smaller score replaces
      the incumbent and is printed, any other score changes nothing. */
  lemma IncumbentStep(candidates: seq<Rank>, s: seq<nat>, i: nat,
                      best: Option<Rank>, minAgony: Score, improvements: seq<nat>)
    requires i < |s| == |candidates|
    requires Incumbent(candidates, s, i, best, minAgony, improvements)
    ensures minAgony.Infinity? || s[i] < minAgony.value ==>
      Incumbent(candidates, s, i + 1, Some(candidates[i]), Finite(s[i]), improvements + [s[i]])
    ensures !(minAgony.Infinity? || s[i] < minAgony.value) ==>
      Incumbent(candidates, s, i + 1, best, minAgony, improvements)
  {
    if i > 0 {
      ArgMinIsEarliestMinimum(s, i);
    }
  }

  /** min_agony_ranking (ranking.py:18-35).  `candidates` are the rankings
      produced by the successive draws; at most MaxAttempts of them are
      scored.  `improvements` is the sequence of agony values printed on
      each improvement (ranking.py:31), and `attempts` the number of
      candidates drawn and scored. */
  method MinAgonyRanking(g: Graph, candidates: seq<Rank>)
    returns (best: Option<Rank>, minAgony: Score, improvements: seq<nat>, attempts: nat)
    requires WellFormed(g)
    requires AllCandidates(g, candidates)
    // the search scores candidates in order, stopping after the first of
    // agony 0 or at the cap (ranking.py:26, 32-33)
    ensures attempts == Scored(g, candidates)
    ensures attempts <= Min(MaxAttempts, |candidates|)
    ensures Min(MaxAttempts, |candidates|) > 0 ==> attempts > 0
    ensures forall j | 0 <= j < attempts - 1 :: Scores(g, candidates)[j] > 0
    ensures attempts == Min(MaxAttempts, |candidates|) || Scores(g, candidates)[attempts - 1] == 0
    // nothing is returned exactly when nothing is scored
    ensures best.None? <==> Scored(g, candidates) == 0
    ensures minAgony.Infinity? <==> Scored(g, candidates) == 0
    // otherwise the incumbent after the last scored candidate, with its agony
    ensures Scored(g, candidates) > 0 ==>
      var w := ArgMin(Scores(g, candidates), Scored(g, candidates));
      best == Some(candidates[w]) && minAgony == Finite(Scores(g, candidates)[w])
    // the returned agony is that of the returned ranking and no scored
    // candidate does better
    ensures best.Some? ==>
      Covers(g.edges, best.value) && minAgony == Finite(AgonyOf(g.edges, best.value))
    ensures minAgony.Finite? ==>
      forall j | 0 <= j < Scored(g, candidates) :: minAgony.value <= Scores(g, candidates)[j]
    // the printed improvements are the scores that beat every earlier one;
    // they strictly decrease and end in the result
    ensures improvements == Records(Scores(g, candidates), Scored(g, candidates))
    ensures StrictlyDecreasing(improvements)
    ensures |improvements| > 0 <==> minAgony.Finite?
    ensures minAgony.Finite? ==> improvements[|improvements| - 1] == minAgony.value
  {
    ghost var s := Scores(g, candidates);
    var limit := Min(MaxAttempts, |candidates|);
    best, minAgony, improvements := None, Infinity, [];
    var i := 0;
    var solved := false;
    while i < limit && !solved
      invariant i <= limit
      invariant solved ==> 0 < i && s[i - 1] == 0 && ArgMin(s, i) == i - 1
      invariant 0 < i && !solved ==> minAgony.Finite? && minAgony.value > 0
      invariant Incumbent(candidates, s, i, best, minAgony, improvements)
    {
      var ranking := candidates[i];
      CandidateCovers(g, ranking);
      var agony := ComputeAgony(g, ranking);
      ScoreAt(g, candidates, i);
      IncumbentStep(candidates, s, i, best, minAgony, improvements);
      if minAgony.Infinity? || agony < minAgony.value {
        minAgony := Finite(agony);
        best := Some(ranking);
        improvements := improvements + [agony];
        // a ranking of agony 0 ends the search (ranking.py:32-33)
        solved := agony == 0;
      }
      i := i + 1;
    }
    if i > 0 {
      ArgMinIsEarliestMinimum(s, i);
      CandidateCovers(g, candidates[ArgMin(s, i)]);
      ScoreAt(g, candidates, ArgMin(s, i));
    }
    AttemptsExact(s, limit, 0, i);
    assert Scored(g, candidates) == i;
    AttemptsStop(s, limit);
    RecordsDecrease(s, i);
    attempts := i;
  }
}
