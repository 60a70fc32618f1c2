/**
 * The Jones-Plassmann colouring loop as the workers run it, with the
 * collectives played out one after the other: the scatter of adjacency
 * rows, each worker's pass over its own vertices against the colours of
 * the previous round, and the gather that rebuilds the shared colour
 * array. Every worker's colour buffer sits at its block's offset inside
 * one array of `V` cells, so the gather is a copy of that array.
 */
module JonesPlassmann {
  import opened Palette
  import opened Partition
  import opened ColoringRounds

  /** The block of worker `p`'s rows stays inside the `v * v` matrix. */
  lemma SliceFits(v: nat, npes: nat, p: nat)
    requires npes >= 1 && p < npes
    ensures PrefixSum(v, npes, p) * v + RangeSize(v, npes, p) * v <= v * v
  {
    var a := PrefixSum(v, npes, p);
    var b := RangeSize(v, npes, p);
    BlockInside(v, npes, p);
    assert a + b <= v;
    Distribute(a, b, v);
    MulMono(a + b, v, v);
  }

  /** The adjacency rows of worker `p`'s vertices: what the scatter hands that worker. */
  function Slice(v: nat, npes: nat, graph: seq<int>, p: nat): (s: seq<int>)
    requires npes >= 1 && |graph| == v * v && p < npes
    ensures |s| == RangeSize(v, npes, p) * v
  {
    SliceFits(v, npes, p);
    graph[PrefixSum(v, npes, p) * v .. PrefixSum(v, npes, p) * v + RangeSize(v, npes, p) * v]
  }

  /** Row `j` of worker `p`'s slice is the graph row of its `j`-th vertex. */
  lemma SliceRow(v: nat, npes: nat, graph: seq<int>, p: nat, j: nat)
    requires npes >= 1 && |graph| == v * v && p < npes && j < RangeSize(v, npes, p)
    ensures j * v + v <= |Slice(v, npes, graph, p)|
    ensures PrefixSum(v, npes, p) + j < v
    ensures Row(Slice(v, npes, graph, p), v, j) == GraphRow(v, graph, PrefixSum(v, npes, p) + j)
  {
    BlockInside(v, npes, p);
    SliceFits(v, npes, p);
    var first := PrefixSum(v, npes, p);
    SubmatrixRow(graph, v, first, RangeSize(v, npes, p), j, Slice(v, npes, graph, p));
    assert GraphRow(v, graph, first + j) == Row(graph, v, first + j);
  }

  /** Row `j` of the rows `first .. first + size - 1` of a `v * v` matrix is row `first + j` of the matrix. */
  lemma SubmatrixRow(graph: seq<int>, v: nat, first: nat, size: nat, j: nat, s: seq<int>)
    requires |graph| == v * v && first + size <= v && j < size
    requires first * v + size * v <= v * v
    requires s == graph[first * v .. first * v + size * v]
    ensures j * v + v <= |s|
    ensures (first + j) * v + v <= |graph|
    ensures Row(s, v, j) == Row(graph, v, first + j)
  {
    RowFits(size, v, j);
    RowFits(v, v, first + j);
    var a := Row(s, v, j);
    var b := Row(graph, v, first + j);
    forall k | 0 <= k < v ensures a[k] == b[k] {
      RowOffset(first, j, v, k);
    }
  }

  /** Position `k` of row `j` after `first` rows is position `k` of row `first + j`. */
  lemma RowOffset(first: nat, j: nat, v: nat, k: nat)
    ensures first * v + (j * v + k) == (first + j) * v + k
  {
    Distribute(first, j, v);
  }

  /**
   * The neighbour loop for the `j`-th vertex of a worker: the vertex stays a
   * maximum unless some uncoloured neighbour outranks it, in which case the
   * loop stops; until then the colours of the coloured neighbours are
   * appended to a zeroed buffer of `v` cells.
   */
  method ScanNeighbours(v: nat, pGraph: seq<int>, j: nat, jWeight: int, weights: seq<int>, colors: array<int>)
    returns (isMax: bool, neighborColors: array<int>, numColors: nat)
    requires j * v + v <= |pGraph| && |weights| == v && colors.Length == v
    ensures fresh(neighborColors) && neighborColors.Length == v && numColors <= v
    ensures isMax == IsLocalMax(Row(pGraph, v, j), weights, colors[..], jWeight, j)
    ensures isMax ==> neighborColors[..numColors] == NeighborColors(Row(pGraph, v, j), colors[..], v)
    ensures forall i :: numColors <= i < v ==> neighborColors[i] == 0
  {
    ghost var row := Row(pGraph, v, j);
    neighborColors := new int[v](_ => 0);
    numColors := 0;
    isMax := true;
    var k := 0;
    while k < v
      invariant k <= v && numColors <= k
      invariant isMax
      invariant neighborColors[..numColors] == NeighborColors(row, colors[..], k)
      invariant forall i :: numColors <= i < v ==> neighborColors[i] == 0
      invariant forall m :: 0 <= m < k && row[m] == 1 && colors[m] == 0 ==> !Outranks(weights, jWeight, j, m)
    {
      if pGraph[j * v + k] == 1 {
        if colors[k] != 0 {
          neighborColors[numColors] := colors[k];
          numColors := numColors + 1;
        } else if jWeight < weights[k] || (jWeight == weights[k] && k > j) {
          isMax := false;
          assert row[k] == 1 && colors[..][k] == 0 && Outranks(weights, jWeight, j, k);
          return;
        }
      }
      k := k + 1;
    }
  }

  /**
   * One vertex of worker `p` in one round: if it is a local maximum and
   * still uncoloured, the smallest free colour is written to its cell of
   * the colour buffer; otherwise the buffer is left alone.
   */
  method ColorVertex(v: nat, pGraph: seq<int>, weights: seq<int>,
                     colors: array<int>, jColors: array<int>, firstV: nat, j: nat)
    requires j * v + v <= |pGraph| && |weights| == v && firstV + j < v
    requires colors.Length == v && jColors.Length == v && colors != jColors
    requires forall u :: 0 <= u < v ==> colors[u] >= 0
    requires jColors[firstV + j] == colors[firstV + j]
    modifies jColors
    ensures jColors[..] == old(jColors[..])[firstV + j :=
      Decide(Row(pGraph, v, j), weights, colors[..], weights[firstV + j], j, colors[firstV + j])]
  {
    var u := firstV + j;
    var jWeight := weights[u];
    var isMax, neighborColors, numColors := ScanNeighbours(v, pGraph, j, jWeight, weights, colors);
    if isMax && colors[u] == 0 {
      ghost var found := neighborColors[..numColors];
      NeighborColorsPositive(Row(pGraph, v, j), colors[..], v);
      SortPrefix(neighborColors, numColors);
      SortedPositive(neighborColors, numColors, found);
      var minColor := GapScan(neighborColors, numColors);
      MexPermutation(neighborColors[..numColors], found);
      jColors[u] := minColor;
    }
  }

  /**
   * What worker `p` sees of its `j`-th vertex `u`: the row of its slice is
   * the graph row of `u`, and `j` is the local index of `u`, so the round's
   * decision for `u` is the one the worker makes from its slice.
   */
  lemma WorkerView(v: nat, npes: nat, graph: seq<int>, weights: seq<int>, colors: seq<int>, p: nat, j: nat)
    requires npes >= 1 && |graph| == v * v && |weights| == v && |colors| == v && p < npes
    requires j < RangeSize(v, npes, p)
    ensures j * v + v <= |Slice(v, npes, graph, p)|
    ensures PrefixSum(v, npes, p) + j < v
    ensures var u := PrefixSum(v, npes, p) + j;
      var row := Row(Slice(v, npes, graph, p), v, j);
      NextColors(v, npes, graph, weights, colors)[u] == Decide(row, weights, colors, weights[u], j, colors[u])
  {
    var u := PrefixSum(v, npes, p) + j;
    SliceRow(v, npes, graph, p, j);
    NextColorsUpToAt(v, npes, graph, weights, colors, v, u);
    BlockInside(v, npes, p);
    OwnerUnique(v, npes, u, p);
  }

  /** A sorted rearrangement of positive values is positive. */
  lemma SortedPositive(a: array<int>, n: nat, found: seq<int>)
    requires n <= a.Length && multiset(a[..n]) == multiset(found)
    requires forall x :: x in found ==> x >= 1
    ensures forall i :: 0 <= i < n ==> a[i] > 0
  {
    forall i | 0 <= i < n ensures a[i] > 0 {
      assert a[..n][i] in multiset(a[..n]);
      assert a[i] in multiset(found);
      assert a[i] in found;
    }
  }

  /**
   * Every worker walks over its own block of vertices, recomputing the
   * block's first vertex from the closed formula, and decides each vertex
   * against the colours of the previous round.
   */
  method WorkersDecide(v: nat, npes: nat, graph: seq<int>, pGraphs: seq<seq<int>>, weights: seq<int>,
                       range: array<int>, colors: array<int>, jColors: array<int>)
    requires npes >= 1 && |graph| == v * v && |weights| == v
    requires |pGraphs| == npes && forall p :: 0 <= p < npes ==> pGraphs[p] == Slice(v, npes, graph, p)
    requires range.Length == npes && forall p :: 0 <= p < npes ==> range[p] == RangeSize(v, npes, p)
    requires colors.Length == v && jColors.Length == v && colors != jColors && jColors != range
    requires forall u :: 0 <= u < v ==> colors[u] >= 0
    requires jColors[..] == colors[..]
    modifies jColors
    ensures jColors[..] == NextColors(v, npes, graph, weights, colors[..])
  {
    ghost var next := NextColors(v, npes, graph, weights, colors[..]);
    var numVPerP := v / npes;
    var p := 0;
    while p < npes
      invariant p <= npes
      invariant forall u :: 0 <= u < PrefixSum(v, npes, p) && u < v ==> jColors[u] == next[u]
      invariant forall u :: PrefixSum(v, npes, p) <= u < v ==> jColors[u] == colors[u]
    {
      var remainder := (v + p) % npes;
      var firstV := numVPerP * p + remainder * (if remainder < p then 1 else 0);
      FirstVertexIsPrefixSum(v, npes, p);
      BlockInside(v, npes, p);
      forall j | 0 <= j < range[p]
        ensures j * v + v <= |pGraphs[p]|
        ensures next[firstV + j] == Decide(Row(pGraphs[p], v, j), weights, colors[..], weights[firstV + j], j, colors[firstV + j])
      {
        WorkerView(v, npes, graph, weights, colors[..], p, j);
      }
      WorkerPass(v, pGraphs[p], weights, range[p], colors, jColors, firstV, next);
      p := p + 1;
    }
    BlocksCoverAll(v, npes);
  }

  /**
   * One worker decides each vertex of its block in turn, from its slice of
   * the adjacency matrix; the rest of the buffer is untouched. `next` holds
   * the decisions the round calls for.
   */
  method WorkerPass(v: nat, pGraph: seq<int>, weights: seq<int>, size: nat,
                    colors: array<int>, jColors: array<int>, firstV: nat, ghost next: seq<int>)
    requires |weights| == v && |next| == v && firstV + size <= v
    requires colors.Length == v && jColors.Length == v && colors != jColors
    requires forall u :: 0 <= u < v ==> colors[u] >= 0
    requires forall j :: 0 <= j < size ==>
      && j * v + v <= |pGraph|
      && next[firstV + j] == Decide(Row(pGraph, v, j), weights, colors[..], weights[firstV + j], j, colors[firstV + j])
    requires forall u :: firstV <= u < v ==> jColors[u] == colors[u]
    modifies jColors
    ensures forall u :: 0 <= u < firstV ==> jColors[u] == old(jColors[u])
    ensures forall u :: firstV <= u < firstV + size ==> jColors[u] == next[u]
    ensures forall u :: firstV + size <= u < v ==> jColors[u] == old(jColors[u])
  {
    var j := 0;
    while j < size
      invariant j <= size
      invariant forall u :: 0 <= u < firstV ==> jColors[u] == old(jColors[u])
      invariant forall u :: firstV <= u < firstV + j ==> jColors[u] == next[u]
      invariant forall u :: firstV + j <= u < v ==> jColors[u] == old(jColors[u])
    {
      ColorVertex(v, pGraph, weights, colors, jColors, firstV, j);
      j := j + 1;
    }
  }

  /**
   * The gather: block `p` of the buffer, `range[p]` cells starting at
   * `offsets[p]`, lands at the same place in the shared colour array. The
   * broadcast that follows changes nothing once there is a single copy.
   */
  method Gather(v: nat, npes: nat, range: array<int>, offsets: array<int>, jColors: array<int>, colors: array<int>)
    requires npes >= 1
    requires range.Length == npes && forall p :: 0 <= p < npes ==> range[p] == RangeSize(v, npes, p)
    requires offsets.Length == npes && forall p :: 0 <= p < npes ==> offsets[p] == PrefixSum(v, npes, p)
    requires colors.Length == v && jColors.Length == v && colors != jColors
    requires colors != range && colors != offsets
    modifies colors
    ensures colors[..] == jColors[..]
  {
    var p := 0;
    while p < npes
      invariant p <= npes
      invariant forall u :: 0 <= u < PrefixSum(v, npes, p) && u < v ==> colors[u] == jColors[u]
    {
      BlockInside(v, npes, p);
      var first, size := offsets[p], range[p];
      assert first + size == PrefixSum(v, npes, p + 1) <= v;
      forall j | 0 <= j < size {
        colors[first + j] := jColors[first + j];
      }
      assert forall u :: first <= u < first + size ==> colors[u] == jColors[u];
      p := p + 1;
    }
    BlocksCoverAll(v, npes);
  }

  /**
   * The colouring loop: the workers' colour buffer starts zeroed and the
   * loop runs `chromaticityUpper` rounds, each one a pass of every worker
   * followed by the gather. The shared colours end up as the colours after
   * that many rounds.
   */
  method Rounds(v: nat, npes: nat, graph: seq<int>, pGraphs: seq<seq<int>>, weights: seq<int>,
                chromaticityUpper: int, range: array<int>, offsets: array<int>, colors: array<int>)
    requires npes >= 1 && |graph| == v * v && |weights| == v
    requires |pGraphs| == npes && forall p :: 0 <= p < npes ==> pGraphs[p] == Slice(v, npes, graph, p)
    requires range.Length == npes && forall p :: 0 <= p < npes ==> range[p] == RangeSize(v, npes, p)
    requires offsets.Length == npes && forall p :: 0 <= p < npes ==> offsets[p] == PrefixSum(v, npes, p)
    requires colors.Length == v && forall u :: 0 <= u < v ==> colors[u] == 0
    requires colors != range && colors != offsets
    modifies colors
    ensures colors[..] == ColorsAfter(v, npes, graph, weights, if chromaticityUpper < 0 then 0 else chromaticityUpper)
  {
    var jColors := new int[v](_ => 0);
    assert colors[..] == ColorsAfter(v, npes, graph, weights, 0);
    var i := 0;
    while i < chromaticityUpper
      invariant 0 <= i && (i <= chromaticityUpper || i == 0)
      invariant colors[..] == jColors[..] == ColorsAfter(v, npes, graph, weights, i)
    {
      ColorsAfterWithin(v, npes, graph, weights, i);
      Round(v, npes, graph, pGraphs, weights, range, offsets, colors, jColors);
      i := i + 1;
    }
  }

  /** One round: every worker's pass, then the gather into the shared colours. */
  method Round(v: nat, npes: nat, graph: seq<int>, pGraphs: seq<seq<int>>, weights: seq<int>,
               range: array<int>, offsets: array<int>, colors: array<int>, jColors: array<int>)
    requires npes >= 1 && |graph| == v * v && |weights| == v
    requires |pGraphs| == npes && forall p :: 0 <= p < npes ==> pGraphs[p] == Slice(v, npes, graph, p)
    requires range.Length == npes && forall p :: 0 <= p < npes ==> range[p] == RangeSize(v, npes, p)
    requires offsets.Length == npes && forall p :: 0 <= p < npes ==> offsets[p] == PrefixSum(v, npes, p)
    requires colors.Length == v && jColors.Length == v && colors != jColors
    requires colors != range && colors != offsets && jColors != range && jColors != offsets
    requires forall u :: 0 <= u < v ==> colors[u] >= 0
    requires jColors[..] == colors[..]
    modifies colors, jColors
    ensures jColors[..] == NextColors(v, npes, graph, weights, old(colors[..]))
    ensures colors[..] == jColors[..]
  {
    WorkersDecide(v, npes, graph, pGraphs, weights, range, colors, jColors);
    Gather(v, npes, range, offsets, jColors, colors);
  }

  /**
   * The program around the loop: the partition, the scatter of each
   * worker's rows, zeroed colours, then the rounds. The colouring it
   * produces is proper on a symmetric graph without self-loops and uses no
   * colour above the number of rounds.
   */
  method ColorGraph(v: nat, npes: nat, graph: seq<int>, weights: seq<int>, chromaticityUpper: int)
    returns (colors: array<int>)
    requires npes >= 1 && |graph| == v * v && |weights| == v
    ensures colors.Length == v
    ensures colors[..] == ColorsAfter(v, npes, graph, weights, if chromaticityUpper < 0 then 0 else chromaticityUpper)
    ensures Symmetric(v, graph) && NoSelfLoops(v, graph) ==> Proper(v, graph, colors[..])
    ensures ColorsWithin(colors[..], if chromaticityUpper < 0 then 0 else chromaticityUpper)
  {
    var range, pGraphSize, offsets, vertexOffsets := ComputePartition(v, npes);
    var pGraphs := Scatter(v, npes, graph, pGraphSize, offsets);
    colors := new int[v](_ => 0);
    Rounds(v, npes, graph, pGraphs, weights, chromaticityUpper, range, vertexOffsets, colors);
    var n: nat := if chromaticityUpper < 0 then 0 else chromaticityUpper;
    ColorsAfterWithin(v, npes, graph, weights, n);
    if Symmetric(v, graph) && NoSelfLoops(v, graph) {
      ColorsAfterProper(v, npes, graph, weights, n);
    }
  }

  /** The scatter: worker `p` receives `pGraphSize[p]` entries of the matrix starting at `offsets[p]`. */
  method Scatter(v: nat, npes: nat, graph: seq<int>, pGraphSize: array<int>, offsets: array<int>)
    returns (pGraphs: seq<seq<int>>)
    requires npes >= 1 && |graph| == v * v
    requires pGraphSize.Length == npes && forall p :: 0 <= p < npes ==> pGraphSize[p] == RangeSize(v, npes, p) * v
    requires offsets.Length == npes && forall p :: 0 <= p < npes ==> offsets[p] == PrefixSum(v, npes, p) * v
    ensures |pGraphs| == npes && forall p :: 0 <= p < npes ==> pGraphs[p] == Slice(v, npes, graph, p)
  {
    pGraphs := [];
    var p := 0;
    while p < npes
      invariant p <= npes && |pGraphs| == p
      invariant forall q :: 0 <= q < p ==> pGraphs[q] == Slice(v, npes, graph, q)
    {
      SliceFits(v, npes, p);
      var lo, len := offsets[p], pGraphSize[p];
      MulMono(0, PrefixSum(v, npes, p), v);
      MulMono(0, RangeSize(v, npes, p), v);
      pGraphs := pGraphs + [graph[lo .. lo + len]];
      p := p + 1;
    }
  }
}
