/**
 * The two pieces of the graph reader that the colouring depends on: each
 * edge line sets both entries of the adjacency matrix, and a file without a
 * maximum degree gets a fallback number of rounds.
 */
module GraphInput {
  import opened Palette
  import opened ColoringRounds

  /** Entry `(a, b)` of a `v * v` matrix sits at `a * v + b`, and no other entry does. */
  lemma IndexInjective(v: nat, a: nat, b: nat, c: nat, d: nat)
    requires a < v && b < v && c < v && d < v
    ensures a * v + b == c * v + d <==> a == c && b == d
  {
    if a < c {
      MulMono(a + 1, c, v);
      assert (a + 1) * v == a * v + v;
    } else if c < a {
      MulMono(c + 1, a, v);
      assert (c + 1) * v == c * v + v;
    }
  }

  /** An edge is the matrix entry `a * v + b` being 1. */
  lemma EdgeEntry(v: nat, graph: seq<int>, a: nat, b: nat)
    requires |graph| == v * v && a < v && b < v
    ensures 0 <= a * v + b < v * v
    ensures Edge(v, graph, a, b) <==> graph[a * v + b] == 1
  {
    MulMono(0, a, v);
    RowFits(v, v, a);
    assert GraphRow(v, graph, a) == Row(graph, v, a);
  }

  /** The matrix after an edge line for `(r, c)`: both `(r, c)` and `(c, r)` set to 1. */
  function WithEdge(v: nat, graph: seq<int>, r: nat, c: nat): (g: seq<int>)
    requires |graph| == v * v && r < v && c < v
    ensures |g| == v * v
  {
    EdgeEntry(v, graph, r, c);
    EdgeEntry(v, graph, c, r);
    graph[r * v + c := 1][c * v + r := 1]
  }

  /** After adding `(r, c)` both ways, the edges are the old ones plus `(r, c)` and `(c, r)`. */
  lemma WithEdgeEdges(v: nat, graph: seq<int>, r: nat, c: nat, a: nat, b: nat)
    requires |graph| == v * v && r < v && c < v && a < v && b < v
    ensures Edge(v, WithEdge(v, graph, r, c), a, b) <==>
      (a == r && b == c) || (a == c && b == r) || Edge(v, graph, a, b)
  {
    var g := WithEdge(v, graph, r, c);
    EdgeEntry(v, g, a, b);
    EdgeEntry(v, graph, a, b);
    EdgeEntry(v, graph, r, c);
    EdgeEntry(v, graph, c, r);
    IndexInjective(v, a, b, r, c);
    IndexInjective(v, a, b, c, r);
    SetTwice(graph, r * v + c, c * v + r, a * v + b);
  }

  /** Setting two entries to 1 makes exactly those entries, and the old ones, equal to 1. */
  lemma SetTwice(s: seq<int>, y: nat, z: nat, x: nat)
    requires y < |s| && z < |s| && x < |s|
    ensures s[y := 1][z := 1][x] == 1 <==> x == y || x == z || s[x] == 1
  {
  }

  /** Adding an edge both ways keeps a symmetric matrix symmetric. */
  lemma WithEdgeKeepsSymmetric(v: nat, graph: seq<int>, r: nat, c: nat)
    requires |graph| == v * v && r < v && c < v
    requires Symmetric(v, graph)
    ensures Symmetric(v, WithEdge(v, graph, r, c))
  {
    var g := WithEdge(v, graph, r, c);
    forall a, b | 0 <= a < v && 0 <= b < v
      ensures Edge(v, g, a, b) == Edge(v, g, b, a)
    {
      WithEdgeEdges(v, graph, r, c, a, b);
      WithEdgeEdges(v, graph, r, c, b, a);
    }
  }

  /** The edge line for vertices `r` and `c` (already 0-based) writes both matrix entries. */
  method InsertEdge(graph: array<int>, v: nat, r: nat, c: nat)
    requires graph.Length == v * v && r < v && c < v
    modifies graph
    ensures graph[..] == WithEdge(v, old(graph[..]), r, c)
    ensures Symmetric(v, old(graph[..])) ==> Symmetric(v, graph[..])
  {
    EdgeEntry(v, graph[..], r, c);
    EdgeEntry(v, graph[..], c, r);
    graph[r * v + c] := 1;
    graph[c * v + r] := 1;
    if Symmetric(v, old(graph[..])) {
      WithEdgeKeepsSymmetric(v, old(graph[..]), r, c);
    }
  }

  /**
   * The fallback number of rounds as the reader sets it: `V - 1` for an
   * even number of vertices and `V` for an odd one.
   */
  function FallbackBoundAsWritten(v: nat): int
  {
    if v % 2 == 0 then v - 1 else v
  }

  /** The fallback the reader evidently means: enough colours for the complete graph on `V` vertices. */
  function FallbackBound(v: nat): nat
  {
    v
  }

  /** The number of neighbours of a vertex among vertices 0..n-1 of its row. */
  function Degree(row: seq<int>, n: nat): (d: nat)
    requires n <= |row|
    ensures d <= n
  {
    if n == 0 then 0 else Degree(row, n - 1) + (if row[n - 1] == 1 then 1 else 0)
  }

  /** Only neighbours contribute colours, so there are at most as many colours as neighbours. */
  lemma {:induction false} NeighborColorsAtMostDegree(row: seq<int>, colors: seq<int>, n: nat)
    requires n <= |row| == |colors|
    ensures |NeighborColors(row, colors, n)| <= Degree(row, n)
  {
    if n > 0 {
      NeighborColorsAtMostDegree(row, colors, n - 1);
    }
  }

  /** A row with a non-edge at `skip` has at most `n - 1` neighbours among 0..n-1. */
  lemma {:induction false} DegreeSkipping(row: seq<int>, n: nat, skip: nat)
    requires n <= |row| && skip < n && row[skip] != 1
    ensures Degree(row, n) <= n - 1
  {
    if skip < n - 1 {
      DegreeSkipping(row, n - 1, skip);
    } else {
      assert Degree(row, n - 1) <= n - 1;
    }
  }

  /**
   * Without self-loops, a vertex has at most `V - 1` neighbours, so every
   * colour a round can pick is at most `V`: the corrected fallback is
   * enough rounds' worth of colours for any graph.
   */
  lemma FreeColorWithinFallback(v: nat, graph: seq<int>, colors: seq<int>, u: nat)
    requires |graph| == v * v && |colors| == v && u < v
    requires NoSelfLoops(v, graph)
    ensures 1 <= FreeColor(v, graph, colors, u) <= FallbackBound(v)
  {
    var row := GraphRow(v, graph, u);
    assert !Edge(v, graph, u, u);
    DegreeSkipping(row, v, u);
    NeighborColorsAtMostDegree(row, colors, v);
    MexAtMostLengthPlusOne(NeighborColors(row, colors, v));
  }
}
