/**
 * One Jones-Plassmann colouring round as a function of the colours frozen
 * at the previous round's merge, the run of rounds from all-uncoloured, and
 * what they guarantee: a positive colour never changes, the vertices
 * coloured in one round are pairwise non-adjacent, a proper colouring stays
 * proper, and after `n` rounds no colour exceeds `n`.
 *
 * The graph is a flat `V * V` adjacency matrix (`1` marks an edge), the
 * weights and colours hold one integer per vertex, and colour `0` means
 * "not coloured yet".
 */
module ColoringRounds {
  import opened Palette
  import opened Partition

  /** Row `r` of a matrix with rows of length `v` stored row after row. */
  function Row(m: seq<int>, v: nat, r: nat): (row: seq<int>)
    requires r * v + v <= |m|
    ensures |row| == v
    ensures forall k :: 0 <= k < v ==> row[k] == m[r * v + k]
  {
    m[r * v .. r * v + v]
  }

  /** Row `r` of a matrix of `rows` rows lies inside the matrix. */
  lemma RowFits(rows: nat, v: nat, r: nat)
    requires r < rows
    ensures r * v + v <= rows * v
  {
    assert r * v + v == (r + 1) * v;
    MulMono(r + 1, rows, v);
  }

  lemma MulMono(a: nat, b: nat, c: nat)
    requires a <= b
    ensures a * c <= b * c
  {
  }

  /** The adjacency row of vertex `u` in the `v * v` matrix. */
  function GraphRow(v: nat, graph: seq<int>, u: nat): (row: seq<int>)
    requires |graph| == v * v && u < v
    ensures |row| == v
  {
    RowFits(v, v, u);
    Row(graph, v, u)
  }

  /** There is an edge from `u` to `k` in the `v * v` matrix. */
  predicate Edge(v: nat, graph: seq<int>, u: nat, k: nat)
    requires |graph| == v * v && u < v && k < v
  {
    GraphRow(v, graph, u)[k] == 1
  }

  ghost predicate Symmetric(v: nat, graph: seq<int>)
    requires |graph| == v * v
  {
    forall u, k :: 0 <= u < v && 0 <= k < v ==> Edge(v, graph, u, k) == Edge(v, graph, k, u)
  }

  ghost predicate NoSelfLoops(v: nat, graph: seq<int>)
    requires |graph| == v * v
  {
    forall u :: 0 <= u < v ==> !Edge(v, graph, u, u)
  }

  /** No edge joins two vertices that carry the same positive colour. */
  ghost predicate Proper(v: nat, graph: seq<int>, colors: seq<int>)
    requires |graph| == v * v && |colors| == v
  {
    forall u, k :: 0 <= u < v && 0 <= k < v && Edge(v, graph, u, k) && colors[u] > 0 && colors[k] > 0 ==>
      colors[u] != colors[k]
  }

  /** Every colour lies between 0 and `b`. */
  ghost predicate ColorsWithin(colors: seq<int>, b: int)
  {
    forall u :: 0 <= u < |colors| ==> 0 <= colors[u] <= b
  }

  /**
   * Neighbour `k` beats the vertex under test: a larger weight, or an equal
   * weight and an index `k` above the vertex's LOCAL index `j`.
   */
  predicate Outranks(weights: seq<int>, jWeight: int, j: nat, k: nat)
    requires k < |weights|
  {
    jWeight < weights[k] || (jWeight == weights[k] && k > j)
  }

  /** No uncoloured neighbour in `row` beats the vertex with weight `jWeight` and local index `j`. */
  predicate IsLocalMax(row: seq<int>, weights: seq<int>, colors: seq<int>, jWeight: int, j: nat)
    requires |row| == |weights| == |colors|
  {
    forall k :: 0 <= k < |row| && row[k] == 1 && colors[k] == 0 ==> !Outranks(weights, jWeight, j, k)
  }

  /** The colours of the already coloured neighbours among vertices 0..n-1, in vertex order. */
  function NeighborColors(row: seq<int>, colors: seq<int>, n: nat): seq<int>
    requires n <= |row| == |colors|
  {
    if n == 0 then []
    else NeighborColors(row, colors, n - 1)
         + (if row[n - 1] == 1 && colors[n - 1] != 0 then [colors[n - 1]] else [])
  }

  /** Every coloured neighbour's colour is collected. */
  lemma {:induction false} NeighborColorsHas(row: seq<int>, colors: seq<int>, n: nat, k: nat)
    requires n <= |row| == |colors| && k < n
    requires row[k] == 1 && colors[k] != 0
    ensures colors[k] in NeighborColors(row, colors, n)
  {
    if k < n - 1 {
      NeighborColorsHas(row, colors, n - 1, k);
    }
  }

  /** Collected colours are neighbour colours, so they inherit any bound the colours obey. */
  lemma {:induction false} NeighborColorsWithin(row: seq<int>, colors: seq<int>, n: nat, b: int)
    requires n <= |row| == |colors|
    requires ColorsWithin(colors, b)
    ensures forall x :: x in NeighborColors(row, colors, n) ==> 1 <= x <= b
  {
    if n > 0 {
      NeighborColorsWithin(row, colors, n - 1, b);
    }
  }

  /** With no negative colour, every collected colour is positive. */
  lemma {:induction false} NeighborColorsPositive(row: seq<int>, colors: seq<int>, n: nat)
    requires n <= |row| == |colors|
    requires forall u :: 0 <= u < |colors| ==> colors[u] >= 0
    ensures forall x :: x in NeighborColors(row, colors, n) ==> x >= 1
  {
    if n > 0 {
      NeighborColorsPositive(row, colors, n - 1);
    }
  }

  /**
   * The decision a worker makes for one of its vertices, from the vertex's
   * adjacency row, weight, local index `j` and current colour: a local
   * maximum that is still uncoloured takes the smallest free colour, any
   * other vertex keeps its colour.
   */
  function Decide(row: seq<int>, weights: seq<int>, colors: seq<int>, jWeight: int, j: nat, color: int): int
    requires |row| == |weights| == |colors|
  {
    if IsLocalMax(row, weights, colors, jWeight, j) && color == 0
    then Mex(NeighborColors(row, colors, |row|))
    else color
  }

  /** Vertex `u` is coloured in this round: uncoloured and a local maximum. */
  predicate Selected(v: nat, npes: nat, graph: seq<int>, weights: seq<int>, colors: seq<int>, u: nat)
    requires npes >= 1 && |graph| == v * v && |weights| == v && |colors| == v && u < v
  {
    && IsLocalMax(GraphRow(v, graph, u), weights, colors, weights[u], LocalIndex(v, npes, u))
    && colors[u] == 0
  }

  /** The smallest positive colour unused by the coloured neighbours of `u`. */
  function FreeColor(v: nat, graph: seq<int>, colors: seq<int>, u: nat): int
    requires |graph| == v * v && |colors| == v && u < v
  {
    Mex(NeighborColors(GraphRow(v, graph, u), colors, v))
  }

  /**
   * The colour of vertex `u` after one round: its owner decides it against
   * the colours frozen at the previous merge, using the vertex's local index.
   */
  function NextColor(v: nat, npes: nat, graph: seq<int>, weights: seq<int>, colors: seq<int>, u: nat): int
    requires npes >= 1 && |graph| == v * v && |weights| == v && |colors| == v && u < v
  {
    Decide(GraphRow(v, graph, u), weights, colors, weights[u], LocalIndex(v, npes, u), colors[u])
  }

  /** The colours of vertices 0..n-1 after one round, in vertex order. */
  function NextColorsUpTo(v: nat, npes: nat, graph: seq<int>, weights: seq<int>, colors: seq<int>, n: nat): (next: seq<int>)
    requires npes >= 1 && |graph| == v * v && |weights| == v && |colors| == v && n <= v
    ensures |next| == n
  {
    if n == 0 then []
    else NextColorsUpTo(v, npes, graph, weights, colors, n - 1) + [NextColor(v, npes, graph, weights, colors, n - 1)]
  }

  /**
   * The colours after one round: every worker decides each of its vertices
   * against the same frozen `colors`, and the decisions are concatenated.
   */
  function NextColors(v: nat, npes: nat, graph: seq<int>, weights: seq<int>, colors: seq<int>): (next: seq<int>)
    requires npes >= 1 && |graph| == v * v && |weights| == v && |colors| == v
    ensures |next| == v
  {
    NextColorsUpTo(v, npes, graph, weights, colors, v)
  }

  /** Entry `u` of a prefix of the round's colours is the decision for `u`. */
  lemma {:induction false} NextColorsUpToAt(v: nat, npes: nat, graph: seq<int>, weights: seq<int>, colors: seq<int>, n: nat, u: nat)
    requires npes >= 1 && |graph| == v * v && |weights| == v && |colors| == v && u < n <= v
    ensures NextColorsUpTo(v, npes, graph, weights, colors, n)[u] == NextColor(v, npes, graph, weights, colors, u)
  {
    if u < n - 1 {
      NextColorsUpToAt(v, npes, graph, weights, colors, n - 1, u);
    }
  }

  /** Entry `u` of the round's colours is the decision its owner makes for `u`. */
  lemma NextColorsAt(v: nat, npes: nat, graph: seq<int>, weights: seq<int>, colors: seq<int>, u: nat)
    requires npes >= 1 && |graph| == v * v && |weights| == v && |colors| == v && u < v
    ensures NextColors(v, npes, graph, weights, colors)[u] ==
      if Selected(v, npes, graph, weights, colors, u) then FreeColor(v, graph, colors, u) else colors[u]
  {
    NextColorsUpToAt(v, npes, graph, weights, colors, v, u);
  }

  /** The colours after `n` rounds, starting from all vertices uncoloured. */
  function ColorsAfter(v: nat, npes: nat, graph: seq<int>, weights: seq<int>, n: nat): (c: seq<int>)
    requires npes >= 1 && |graph| == v * v && |weights| == v
    ensures |c| == v
  {
    if n == 0 then seq(v, _ => 0)
    else NextColors(v, npes, graph, weights, ColorsAfter(v, npes, graph, weights, n - 1))
  }

  /** A vertex that is already coloured keeps its colour through a round. */
  lemma RoundKeepsColored(v: nat, npes: nat, graph: seq<int>, weights: seq<int>, colors: seq<int>, u: nat)
    requires npes >= 1 && |graph| == v * v && |weights| == v && |colors| == v && u < v
    requires colors[u] != 0
    ensures NextColors(v, npes, graph, weights, colors)[u] == colors[u]
  {
    NextColorsAt(v, npes, graph, weights, colors, u);
  }

  /**
   * A vertex whose colour a round changes was uncoloured; it gets a positive
   * colour that differs from every coloured neighbour's and is at most the
   * number of coloured neighbours plus one.
   */
  lemma RoundColorsFreshly(v: nat, npes: nat, graph: seq<int>, weights: seq<int>, colors: seq<int>, u: nat)
    requires npes >= 1 && |graph| == v * v && |weights| == v && |colors| == v && u < v
    requires NextColors(v, npes, graph, weights, colors)[u] != colors[u]
    ensures colors[u] == 0
    ensures var c := NextColors(v, npes, graph, weights, colors)[u];
      && c > 0
      && (forall k :: 0 <= k < v && Edge(v, graph, u, k) && colors[k] != 0 ==> c != colors[k])
      && c <= |NeighborColors(GraphRow(v, graph, u), colors, v)| + 1
  {
    NextColorsAt(v, npes, graph, weights, colors, u);
    var row := GraphRow(v, graph, u);
    var c := NextColors(v, npes, graph, weights, colors)[u];
    assert Selected(v, npes, graph, weights, colors, u);
    assert c == Mex(NeighborColors(row, colors, v));
    forall k | 0 <= k < v && Edge(v, graph, u, k) && colors[k] != 0 ensures c != colors[k] {
      NeighborColorsHas(row, colors, v, k);
    }
    MexAtMostLengthPlusOne(NeighborColors(row, colors, v));
  }

  /** An uncoloured vertex whose neighbours are all coloured is coloured in the next round. */
  lemma RoundColorsSurrounded(v: nat, npes: nat, graph: seq<int>, weights: seq<int>, colors: seq<int>, u: nat)
    requires npes >= 1 && |graph| == v * v && |weights| == v && |colors| == v && u < v
    requires colors[u] == 0
    requires forall k :: 0 <= k < v && Edge(v, graph, u, k) ==> colors[k] != 0
    ensures NextColors(v, npes, graph, weights, colors)[u] >= 1
  {
    NextColorsAt(v, npes, graph, weights, colors, u);
    assert Selected(v, npes, graph, weights, colors, u);
  }

  /**
   * Two distinct adjacent vertices that are both uncoloured at the start of
   * a round are never both coloured in it. The tie-break compares a global
   * neighbour index with a local index; a local index never exceeds its
   * global index, which is all the argument needs.
   */
  lemma RoundSelectsIndependentSet(v: nat, npes: nat, graph: seq<int>, weights: seq<int>, colors: seq<int>, u: nat, w: nat)
    requires npes >= 1 && |graph| == v * v && |weights| == v && |colors| == v
    requires u < v && w < v && u != w
    requires Edge(v, graph, u, w) && Edge(v, graph, w, u)
    ensures !(Selected(v, npes, graph, weights, colors, u) && Selected(v, npes, graph, weights, colors, w))
  {

  }

  /** One round keeps a proper colouring proper on a symmetric graph without self-loops. */
  lemma RoundPreservesProper(v: nat, npes: nat, graph: seq<int>, weights: seq<int>, colors: seq<int>)
    requires npes >= 1 && |graph| == v * v && |weights| == v && |colors| == v
    requires Symmetric(v, graph) && NoSelfLoops(v, graph)
    requires Proper(v, graph, colors)
    ensures Proper(v, graph, NextColors(v, npes, graph, weights, colors))
  {
    var next := NextColors(v, npes, graph, weights, colors);
    forall u, k | 0 <= u < v && 0 <= k < v && Edge(v, graph, u, k) && next[u] > 0 && next[k] > 0
      ensures next[u] != next[k]
    {
      assert u != k;
      assert Edge(v, graph, k, u);
      NextColorsAt(v, npes, graph, weights, colors, u);
      NextColorsAt(v, npes, graph, weights, colors, k);
      if next[u] != colors[u] && next[k] != colors[k] {
        RoundSelectsIndependentSet(v, npes, graph, weights, colors, u, k);
      } else if next[u] != colors[u] {
        RoundColorsFreshly(v, npes, graph, weights, colors, u);
      } else if next[k] != colors[k] {
        RoundColorsFreshly(v, npes, graph, weights, colors, k);
      }
    }
  }

  /** One round raises the largest colour by at most one. */
  lemma RoundRaisesBoundByOne(v: nat, npes: nat, graph: seq<int>, weights: seq<int>, colors: seq<int>, b: nat)
    requires npes >= 1 && |graph| == v * v && |weights| == v && |colors| == v
    requires ColorsWithin(colors, b)
    ensures ColorsWithin(NextColors(v, npes, graph, weights, colors), b + 1)
  {
    var next := NextColors(v, npes, graph, weights, colors);
    forall u | 0 <= u < v ensures 0 <= next[u] <= b + 1 {
      NextColorsAt(v, npes, graph, weights, colors, u);
      if Selected(v, npes, graph, weights, colors, u) {
        var row := GraphRow(v, graph, u);
        NeighborColorsWithin(row, colors, v, b);
        MexAtMostBoundPlusOne(NeighborColors(row, colors, v), b);
      }
    }
  }

  /** After `n` rounds every colour lies between 0 and `n`. */
  lemma {:induction false} ColorsAfterWithin(v: nat, npes: nat, graph: seq<int>, weights: seq<int>, n: nat)
    requires npes >= 1 && |graph| == v * v && |weights| == v
    ensures ColorsWithin(ColorsAfter(v, npes, graph, weights, n), n)
  {
    if n > 0 {
      ColorsAfterWithin(v, npes, graph, weights, n - 1);
      RoundRaisesBoundByOne(v, npes, graph, weights, ColorsAfter(v, npes, graph, weights, n - 1), n - 1);
    }
  }

  /** The colouring after any number of rounds is proper. */
  lemma {:induction false} ColorsAfterProper(v: nat, npes: nat, graph: seq<int>, weights: seq<int>, n: nat)
    requires npes >= 1 && |graph| == v * v && |weights| == v
    requires Symmetric(v, graph) && NoSelfLoops(v, graph)
    ensures Proper(v, graph, ColorsAfter(v, npes, graph, weights, n))
  {
    if n > 0 {
      ColorsAfterProper(v, npes, graph, weights, n - 1);
      RoundPreservesProper(v, npes, graph, weights, ColorsAfter(v, npes, graph, weights, n - 1));
    }
  }

  /** A vertex coloured after `m` rounds keeps that colour in every later round. */
  lemma {:induction false} ColorsAfterKeepsColor(v: nat, npes: nat, graph: seq<int>, weights: seq<int>, m: nat, n: nat, u: nat)
    requires npes >= 1 && |graph| == v * v && |weights| == v
    requires m <= n && u < v
    requires ColorsAfter(v, npes, graph, weights, m)[u] != 0
    ensures ColorsAfter(v, npes, graph, weights, n)[u] == ColorsAfter(v, npes, graph, weights, m)[u]
    decreases n - m
  {
    if m < n {
      ColorsAfterKeepsColor(v, npes, graph, weights, m, n - 1, u);
      RoundKeepsColored(v, npes, graph, weights, ColorsAfter(v, npes, graph, weights, n - 1), u);
    }
  }
}
