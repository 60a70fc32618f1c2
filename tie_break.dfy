/**
 * The tie-break between two neighbours of equal weight. The colouring code
 * compares the neighbour's global index with the vertex's index inside its
 * worker's block; the rule it describes, "the vertex with the higher id
 * wins", compares two global indices. With the code's rule two adjacent
 * vertices of equal weight on different workers can each defer to the
 * other forever; with the global rule some uncoloured vertex always wins.
 */
module TieBreak {
  import opened Palette
  import opened Partition
  import opened ColoringRounds

  /** Selection by the global rule: `u` is uncoloured and no uncoloured neighbour beats it on (weight, index). */
  predicate SelectedGlobally(v: nat, graph: seq<int>, weights: seq<int>, colors: seq<int>, u: nat)
    requires |graph| == v * v && |weights| == v && |colors| == v && u < v
  {
    IsLocalMax(GraphRow(v, graph, u), weights, colors, weights[u], u) && colors[u] == 0
  }

  /** The uncoloured vertex among 0..n-1 with the largest weight, the larger index breaking ties. */
  ghost function BestUncolored(weights: seq<int>, colors: seq<int>, n: nat): (b: nat)
    requires |weights| == |colors| && n <= |colors|
    requires exists k :: 0 <= k < n && colors[k] == 0
    ensures b < n && colors[b] == 0
    ensures forall k :: 0 <= k < n && colors[k] == 0 ==> !Outranks(weights, weights[b], b, k)
  {
    if !(exists k :: 0 <= k < n - 1 && colors[k] == 0) then n - 1
    else
      var b := BestUncolored(weights, colors, n - 1);
      if colors[n - 1] == 0 && Outranks(weights, weights[b], b, n - 1) then n - 1 else b
  }

  /**
   * With the global rule every round that starts with an uncoloured vertex
   * selects one: the uncoloured vertex that is largest by (weight, index).
   */
  lemma GlobalTieBreakProgress(v: nat, graph: seq<int>, weights: seq<int>, colors: seq<int>)
    requires |graph| == v * v && |weights| == v && |colors| == v
    requires exists k :: 0 <= k < v && colors[k] == 0
    ensures exists u :: 0 <= u < v && SelectedGlobally(v, graph, weights, colors, u)
  {
    var b := BestUncolored(weights, colors, v);
    assert SelectedGlobally(v, graph, weights, colors, b);
  }

  /** The global rule still never selects two adjacent vertices in one round. */
  lemma GlobalTieBreakIndependent(v: nat, graph: seq<int>, weights: seq<int>, colors: seq<int>, u: nat, w: nat)
    requires |graph| == v * v && |weights| == v && |colors| == v
    requires u < v && w < v && u != w
    requires Edge(v, graph, u, w) && Edge(v, graph, w, u)
    ensures !(SelectedGlobally(v, graph, weights, colors, u) && SelectedGlobally(v, graph, weights, colors, w))
  {
  }

  /** Four vertices with the single edge 1-2. */
  const Path12: seq<int> := [0, 0, 0, 0,  0, 0, 1, 0,  0, 1, 0, 0,  0, 0, 0, 0]

  /** Two workers split the four vertices 0,1 | 2,3, so vertex 1 has local index 1 and vertex 2 local index 0. */
  lemma TwoWorkersOnFour(v: nat, npes: nat)
    requires v == 4 && npes == 2
    ensures LocalIndex(v, npes, 1) == 1 && LocalIndex(v, npes, 2) == 0
  {
    QuotientIsDivision(v, npes);
    QuotientIsDivision(v + 1, npes);
    assert PrefixSum(v, npes, 1) == 2;
    assert PrefixSum(v, npes, 2) == 4;
    OwnerUnique(v, npes, 1, 0);
    OwnerUnique(v, npes, 2, 1);
  }

  /**
   * As written: with two workers and equal weights on vertices 1 and 2 of
   * `Path12`, vertex 1 defers to neighbour 2 because 2 exceeds its local
   * index 1, and vertex 2 defers to neighbour 1 because 1 exceeds its local
   * index 0. So neither is ever coloured, however many rounds run.
   */
  lemma {:induction false} LocalTieBreakStalls(v: nat, npes: nat, graph: seq<int>, weights: seq<int>, n: nat)
    requires v == 4 && npes == 2 && graph == Path12
    requires |weights| == 4 && weights[1] == weights[2]
    ensures ColorsAfter(v, npes, graph, weights, n)[1] == 0
    ensures ColorsAfter(v, npes, graph, weights, n)[2] == 0
  {
    if n > 0 {
      LocalTieBreakStalls(v, npes, graph, weights, n - 1);
      StalledRound(v, npes, graph, weights, ColorsAfter(v, npes, graph, weights, n - 1));
    }
  }

  /** One round of the stall: vertices 1 and 2 both stay uncoloured. */
  lemma StalledRound(v: nat, npes: nat, graph: seq<int>, weights: seq<int>, c: seq<int>)
    requires v == 4 && npes == 2 && graph == Path12
    requires |weights| == 4 && weights[1] == weights[2]
    requires |c| == 4 && c[1] == 0 && c[2] == 0
    ensures NextColors(v, npes, graph, weights, c)[1] == 0
    ensures NextColors(v, npes, graph, weights, c)[2] == 0
  {
    Vertex1Defers(v, npes, graph, weights, c);
    Vertex2Defers(v, npes, graph, weights, c);
    NextColorsAt(v, npes, graph, weights, c, 1);
    NextColorsAt(v, npes, graph, weights, c, 2);
  }

  /** On `Path12` with two workers, vertex 1 defers to its uncoloured neighbour 2. */
  lemma Vertex1Defers(v: nat, npes: nat, graph: seq<int>, weights: seq<int>, c: seq<int>)
    requires v == 4 && npes == 2 && graph == Path12
    requires |weights| == 4 && weights[1] == weights[2]
    requires |c| == 4 && c[2] == 0
    ensures !IsLocalMax(GraphRow(v, graph, 1), weights, c, weights[1], LocalIndex(v, npes, 1))
  {
    Path12Rows(v, graph);
    EqualWeightsDefer(v, npes, weights);
  }

  /** On `Path12` with two workers, vertex 2 defers to its uncoloured neighbour 1. */
  lemma Vertex2Defers(v: nat, npes: nat, graph: seq<int>, weights: seq<int>, c: seq<int>)
    requires v == 4 && npes == 2 && graph == Path12
    requires |weights| == 4 && weights[1] == weights[2]
    requires |c| == 4 && c[1] == 0
    ensures !IsLocalMax(GraphRow(v, graph, 2), weights, c, weights[2], LocalIndex(v, npes, 2))
  {
    Path12Rows(v, graph);
    EqualWeightsDefer(v, npes, weights);
  }

  /** The adjacency rows of vertices 1 and 2 in `Path12`. */
  lemma Path12Rows(v: nat, graph: seq<int>)
    requires v == 4 && graph == Path12
    ensures GraphRow(v, graph, 1) == [0, 0, 1, 0]
    ensures GraphRow(v, graph, 2) == [0, 1, 0, 0]
  {
  }

  /** With equal weights, neighbour 2 beats vertex 1 and neighbour 1 beats vertex 2 under the local-index rule. */
  lemma EqualWeightsDefer(v: nat, npes: nat, weights: seq<int>)
    requires v == 4 && npes == 2 && |weights| == 4 && weights[1] == weights[2]
    ensures Outranks(weights, weights[1], LocalIndex(v, npes, 1), 2)
    ensures Outranks(weights, weights[2], LocalIndex(v, npes, 2), 1)
  {
    TwoWorkersOnFour(v, npes);
  }

  /** Corrected: on the same input the global rule selects vertex 2 in the first round. */
  lemma GlobalTieBreakColorsPath12(weights: seq<int>)
    requires |weights| == 4 && weights[1] == weights[2]
    ensures SelectedGlobally(4, Path12, weights, seq(4, _ => 0), 2)
  {
    assert GraphRow(4, Path12, 2) == [0, 1, 0, 0];
  }
}
