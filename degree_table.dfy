/** The in-degree histogram and the Price's-model attachment table that each
    growth step derives from the current in-degrees
    (hierarchy-in-prices-model.py:44-51).

    The source divides in floating point: p_k = count_k / N, then
    p[k] = (k + 1) * p_k / (m + 1).  Here every entry shares the exact
    denominator N * (m + 1) and the table holds the numerators
    (k + 1) * count_k. */
module DegreeTable {

  /** How many entries of s equal k (a Counter lookup that yields 0 for an absent key). */
  function Count(s: seq<nat>, k: nat): (c: nat) {
    if |s| == 0 then 0 else (if s[0] == k then 1 else 0) + Count(s[1..], k)
  }

  /** The largest entry of a non-empty sequence (Python's max). */
  function MaxOf(s: seq<nat>): (r: nat)
    requires |s| > 0
    ensures forall i | 0 <= i < |s| :: s[i] <= r
    ensures exists i | 0 <= i < |s| :: s[i] == r
  {
    if |s| == 1 then s[0]
    else
      var rest := MaxOf(s[1..]);
      assert forall i | 1 <= i < |s| :: s[i] == s[1..][i - 1];
      if s[0] >= rest then s[0] else rest
  }

  /** Counts of in-degree 0 .. max(degrees): the entries of p_k before dividing by N. */
  function Histogram(degrees: seq<nat>): (h: seq<nat>)
    requires |degrees| > 0
    ensures |h| == MaxOf(degrees) + 1
    ensures forall k | 0 <= k < |h| :: h[k] == Count(degrees, k)
  {
    seq(MaxOf(degrees) + 1, k requires 0 <= k => Count(degrees, k))
  }

  /** The numerators (k + 1) * count_k of the attachment table p. */
  function AttachTable(degrees: seq<nat>): (p: seq<nat>)
    requires |degrees| > 0
    ensures |p| == |Histogram(degrees)|
    ensures forall k | 0 <= k < |p| :: p[k] == (k + 1) * Count(degrees, k)
  {
    var h := Histogram(degrees);
    seq(|h|, k requires 0 <= k < |h| => (k + 1) * h[k])
  }

  /** The common denominator N * (m + 1) of every entry of p. */
  function AttachDenominator(nodeCount: nat, m: nat): (d: nat) {
    nodeCount * (m + 1)
  }

  function Sum(s: seq<nat>): (total: nat) {
    if |s| == 0 then 0 else Sum(s[..|s| - 1]) + s[|s| - 1]
  }

  /** count_0 + ... + count_{K-1}. */
  function CountBelow(s: seq<nat>, bound: nat): (c: nat) {
    if bound == 0 then 0 else CountBelow(s, bound - 1) + Count(s, bound - 1)
  }

  lemma {:induction false} CountCons(x: nat, t: seq<nat>, k: nat)
    ensures Count([x] + t, k) == (if x == k then 1 else 0) + Count(t, k)
  {
    assert ([x] + t)[1..] == t;
  }

  lemma {:induction false} CountBelowCons(x: nat, t: seq<nat>, bound: nat)
    ensures CountBelow([x] + t, bound) == CountBelow(t, bound) + (if x < bound then 1 else 0)
  {
    if bound > 0 {
      CountBelowCons(x, t, bound - 1);
      CountCons(x, t, bound - 1);
    }
  }

  /** When every entry is below the bound, the counts below it add up to the length. */
  lemma {:induction false} CountBelowAll(s: seq<nat>, bound: nat)
    requires forall i | 0 <= i < |s| :: s[i] < bound
    ensures CountBelow(s, bound) == |s|
  {
    if |s| == 0 {
      if bound > 0 {
        CountBelowAll(s, bound - 1);
      }
    } else {
      assert s == [s[0]] + s[1..];
      CountBelowAll(s[1..], bound);
      CountBelowCons(s[0], s[1..], bound);
    }
  }

  lemma {:induction false} SumOfCounts(s: seq<nat>, bound: nat)
    ensures Sum(seq(bound, k requires 0 <= k => Count(s, k))) == CountBelow(s, bound)
  {
    if bound > 0 {
      var counts := seq(bound, k requires 0 <= k => Count(s, k));
      assert counts[..bound - 1] == seq(bound - 1, k requires 0 <= k => Count(s, k));
      SumOfCounts(s, bound - 1);
    }
  }

  /** The histogram's counts add up to the number of nodes: p_0 + ... + p_max == 1. */
  lemma HistogramTotal(degrees: seq<nat>)
    requires |degrees| > 0
    ensures Sum(Histogram(degrees)) == |degrees|
  {
    var bound := MaxOf(degrees) + 1;
    assert Histogram(degrees) == seq(bound, k requires 0 <= k => Count(degrees, k));
    SumOfCounts(degrees, bound);
    CountBelowAll(degrees, bound);
  }

  /** Every entry of s is counted at least once under its own value. */
  lemma {:induction false} CountMember(s: seq<nat>, i: nat)
    requires i < |s|
    ensures Count(s, s[i]) >= 1
  {
    if i > 0 {
      CountMember(s[1..], i - 1);
    }
  }

  /** For the in-degree k of any existing node, p[k] is defined and positive:
      k <= max_degree, count_k >= 1, so (k + 1) * count_k >= 1. */
  lemma TableEntryPositive(degrees: seq<nat>, v: nat)
    requires v < |degrees|
    ensures degrees[v] < |AttachTable(degrees)|
    ensures AttachTable(degrees)[degrees[v]] >= 1
  {
    var k := degrees[v];
    CountMember(degrees, v);
    var c := Count(degrees, k);
    assert (k + 1) * c >= c by {
      assert (k + 1) * c == k * c + c;
    }
  }

  /** Every in-degree indexes the table, at a positive entry. */
  lemma TableCovers(degrees: seq<nat>)
    ensures forall v | 0 <= v < |degrees| ::
      degrees[v] < |AttachTable(degrees)| && AttachTable(degrees)[degrees[v]] >= 1
  {
    forall v | 0 <= v < |degrees|
      ensures degrees[v] < |AttachTable(degrees)| && AttachTable(degrees)[degrees[v]] >= 1
    {
      TableEntryPositive(degrees, v);
    }
  }
}
