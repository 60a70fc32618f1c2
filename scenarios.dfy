/**
 * Small worked inputs: colours picked from a few neighbour-colour lists, how
 * ten vertices are split over four workers, the complete graph on two
 * vertices under the two fallback round counts, and two rounds on a path.
 */
module Scenarios {
  import opened Palette
  import opened Partition
  import opened ColoringRounds
  import opened GraphInput

  /** Picked colours: the smallest positive colour missing from the neighbours' colours. */
  lemma MexExamples()
    ensures Mex([1, 1]) == 2
    ensures Mex([2, 3]) == 1
    ensures Mex([1, 2, 4]) == 3
    ensures Mex([1, 2, 3]) == 4
    ensures Mex([]) == 1
  {
    MexIsUnique([1, 1], 2);
    MexIsUnique([2, 3], 1);
    MexIsUnique([1, 2, 4], 3);
    MexIsUnique([1, 2, 3], 4);
  }

  /**
   * Ten vertices on four workers: blocks of 2, 2, 3 and 3 vertices starting
   * at 0, 2, 4 and 7. The two extra vertices go to the last two workers.
   */
  lemma TenOverFour(v: nat, npes: nat)
    requires v == 10 && npes == 4
    ensures RangeSize(v, npes, 0) == 2 && RangeSize(v, npes, 1) == 2
    ensures RangeSize(v, npes, 2) == 3 && RangeSize(v, npes, 3) == 3
    ensures FirstVertex(v, npes, 0) == 0 && FirstVertex(v, npes, 1) == 2
    ensures FirstVertex(v, npes, 2) == 4 && FirstVertex(v, npes, 3) == 7
  {
    QuotientIsDivision(v, npes);
    QuotientIsDivision(v + 1, npes);
    QuotientIsDivision(v + 2, npes);
    QuotientIsDivision(v + 3, npes);
  }

  /** The complete graph on two vertices. */
  const K2: seq<int> := [0, 1, 1, 0]

  /** `K2` has the edge 0-1 both ways and no self-loop. */
  lemma K2Edges(v: nat, graph: seq<int>)
    requires v == 2 && graph == K2
    ensures Edge(v, graph, 0, 1) && Edge(v, graph, 1, 0)
    ensures NoSelfLoops(v, graph) && Symmetric(v, graph)
  {
    assert GraphRow(v, graph, 0) == [0, 1];
    assert GraphRow(v, graph, 1) == [1, 0];
  }

  /**
   * As written, the fallback is one round short of `V` for every even `V`;
   * for two vertices it is one round, and one round on `K2` leaves a vertex
   * uncoloured whatever the weights and worker count, because adjacent
   * vertices are never coloured in the same round.
   */
  lemma K2FallbackAsWrittenFalls(v: nat, npes: nat, graph: seq<int>, weights: seq<int>)
    requires v == 2 && npes >= 1 && graph == K2 && |weights| == 2
    ensures FallbackBoundAsWritten(v) == 1
    ensures ColorsAfter(v, npes, graph, weights, 1)[0] == 0 || ColorsAfter(v, npes, graph, weights, 1)[1] == 0
  {
    K2Edges(v, graph);
    var z := ColorsAfter(v, npes, graph, weights, 0);
    RoundSelectsIndependentSet(v, npes, graph, weights, z, 0, 1);
    NextColorsAt(v, npes, graph, weights, z, 0);
    NextColorsAt(v, npes, graph, weights, z, 1);
  }

  /** In the first round on `K2` the heavier vertex, or vertex 1 on a tie, is coloured. */
  lemma K2FirstRound(v: nat, npes: nat, graph: seq<int>, weights: seq<int>)
    requires v == 2 && npes >= 1 && graph == K2 && |weights| == 2
    ensures weights[0] <= weights[1] ==> ColorsAfter(v, npes, graph, weights, 1)[1] != 0
    ensures weights[1] < weights[0] ==> ColorsAfter(v, npes, graph, weights, 1)[0] != 0
  {
    assert GraphRow(v, graph, 0) == [0, 1];
    assert GraphRow(v, graph, 1) == [1, 0];
    var z := ColorsAfter(v, npes, graph, weights, 0);
    NextColorsAt(v, npes, graph, weights, z, 0);
    NextColorsAt(v, npes, graph, weights, z, 1);
  }

  /** With the corrected fallback of two rounds, both vertices of `K2` are coloured. */
  lemma K2FallbackColorsBoth(v: nat, npes: nat, graph: seq<int>, weights: seq<int>)
    requires v == 2 && npes >= 1 && graph == K2 && |weights| == 2
    ensures FallbackBound(v) == 2
    ensures ColorsAfter(v, npes, graph, weights, FallbackBound(v))[0] >= 1
    ensures ColorsAfter(v, npes, graph, weights, FallbackBound(v))[1] >= 1
  {
    K2Edges(v, graph);
    K2FirstRound(v, npes, graph, weights);
    ColorsAfterWithin(v, npes, graph, weights, 2);
    var c1 := ColorsAfter(v, npes, graph, weights, 1);
    forall u | 0 <= u < 2 ensures ColorsAfter(v, npes, graph, weights, 2)[u] != 0 {
      if c1[u] != 0 {
        RoundKeepsColored(v, npes, graph, weights, c1, u);
      } else {
        RoundColorsSurrounded(v, npes, graph, weights, c1, u);
      }
    }
  }

  /** Before any vertex is coloured, a vertex sees no neighbour colours. */
  lemma {:induction false} NoColoredNeighbors(row: seq<int>, colors: seq<int>, n: nat)
    requires n <= |row| == |colors|
    requires forall k :: 0 <= k < |colors| ==> colors[k] == 0
    ensures NeighborColors(row, colors, n) == []
  {
    if n > 0 {
      NoColoredNeighbors(row, colors, n - 1);
    }
  }

  /** The path 0-1-2. */
  const Path3: seq<int> := [0, 1, 0,  1, 0, 1,  0, 1, 0]

  /** The adjacency rows of `Path3`. */
  lemma Path3Rows(v: nat, graph: seq<int>)
    requires v == 3 && graph == Path3
    ensures GraphRow(v, graph, 0) == [0, 1, 0]
    ensures GraphRow(v, graph, 1) == [1, 0, 1]
    ensures GraphRow(v, graph, 2) == [0, 1, 0]
  {
  }

  /**
   * On the path 0-1-2 with weights 100, 50 and 80, the first round colours
   * both ends, which outweigh their only neighbour, with colour 1.
   */
  lemma PathFirstRound(v: nat, npes: nat, graph: seq<int>, weights: seq<int>)
    requires v == 3 && npes >= 1 && graph == Path3 && weights == [100, 50, 80]
    ensures ColorsAfter(v, npes, graph, weights, 1) == [1, 0, 1]
  {
    Path3Rows(v, graph);
    var z := ColorsAfter(v, npes, graph, weights, 0);
    var c1 := ColorsAfter(v, npes, graph, weights, 1);
    NextColorsAt(v, npes, graph, weights, z, 0);
    NextColorsAt(v, npes, graph, weights, z, 1);
    NextColorsAt(v, npes, graph, weights, z, 2);
    NoColoredNeighbors(GraphRow(v, graph, 0), z, v);
    NoColoredNeighbors(GraphRow(v, graph, 2), z, v);
    assert c1[0] == 1 && c1[1] == 0 && c1[2] == 1;
  }

  /** The second round colours the middle vertex, whose neighbours both have colour 1, with colour 2. */
  lemma PathSecondRound(v: nat, npes: nat, graph: seq<int>, weights: seq<int>)
    requires v == 3 && npes >= 1 && graph == Path3 && weights == [100, 50, 80]
    ensures ColorsAfter(v, npes, graph, weights, 2) == [1, 2, 1]
  {
    PathFirstRound(v, npes, graph, weights);
    Path3Rows(v, graph);
    var c1 := ColorsAfter(v, npes, graph, weights, 1);
    var c2 := ColorsAfter(v, npes, graph, weights, 2);
    NextColorsAt(v, npes, graph, weights, c1, 0);
    NextColorsAt(v, npes, graph, weights, c1, 1);
    NextColorsAt(v, npes, graph, weights, c1, 2);
    var row := GraphRow(v, graph, 1);
    assert NeighborColors(row, c1, 1) == [1];
    assert NeighborColors(row, c1, 2) == [1];
    assert NeighborColors(row, c1, 3) == [1, 1];
    MexIsUnique([1, 1], 2);
    assert c2[0] == 1 && c2[1] == 2 && c2[2] == 1;
  }
}
