/**
 * The rounds with both corrections applied: ties broken on two global
 * indices, and the fallback of `V` rounds. Under these rules every round that
 * starts with an uncoloured vertex colours at least one, so `V` rounds colour
 * every vertex of any graph without self-loops, with colours 1..V, and the
 * colouring stays proper on a symmetric graph.
 */
module CorrectedRounds {
  import opened Palette
  import opened ColoringRounds
  import opened GraphInput
  import opened TieBreak

  /** The colour of vertex `u` after one round under the global tie-break. */
  function NextColorGlobal(v: nat, graph: seq<int>, weights: seq<int>, colors: seq<int>, u: nat): int
    requires |graph| == v * v && |weights| == v && |colors| == v && u < v
  {
    Decide(GraphRow(v, graph, u), weights, colors, weights[u], u, colors[u])
  }

  /** The colours of vertices 0..n-1 after one round under the global tie-break. */
  function NextColorsGlobalUpTo(v: nat, graph: seq<int>, weights: seq<int>, colors: seq<int>, n: nat): (next: seq<int>)
    requires |graph| == v * v && |weights| == v && |colors| == v && n <= v
    ensures |next| == n
  {
    if n == 0 then []
    else NextColorsGlobalUpTo(v, graph, weights, colors, n - 1) + [NextColorGlobal(v, graph, weights, colors, n - 1)]
  }

  /** All colours after one round under the global tie-break. */
  function NextColorsGlobal(v: nat, graph: seq<int>, weights: seq<int>, colors: seq<int>): (next: seq<int>)
    requires |graph| == v * v && |weights| == v && |colors| == v
    ensures |next| == v
  {
    NextColorsGlobalUpTo(v, graph, weights, colors, v)
  }

  lemma {:induction false} NextColorsGlobalUpToAt(v: nat, graph: seq<int>, weights: seq<int>, colors: seq<int>, n: nat, u: nat)
    requires |graph| == v * v && |weights| == v && |colors| == v && u < n <= v
    ensures NextColorsGlobalUpTo(v, graph, weights, colors, n)[u] == NextColorGlobal(v, graph, weights, colors, u)
  {
    if u < n - 1 {
      NextColorsGlobalUpToAt(v, graph, weights, colors, n - 1, u);
    }
  }

  /** A vertex selected by the global rule takes its free colour; every other vertex keeps its colour. */
  lemma NextColorsGlobalAt(v: nat, graph: seq<int>, weights: seq<int>, colors: seq<int>, u: nat)
    requires |graph| == v * v && |weights| == v && |colors| == v && u < v
    ensures NextColorsGlobal(v, graph, weights, colors)[u] ==
      if SelectedGlobally(v, graph, weights, colors, u) then FreeColor(v, graph, colors, u) else colors[u]
  {
    NextColorsGlobalUpToAt(v, graph, weights, colors, v, u);
  }

  /** The colours after `n` rounds under the global tie-break, starting from all zero. */
  function ColorsAfterGlobal(v: nat, graph: seq<int>, weights: seq<int>, n: nat): (c: seq<int>)
    requires |graph| == v * v && |weights| == v
    ensures |c| == v
  {
    if n == 0 then seq(v, _ => 0)
    else NextColorsGlobal(v, graph, weights, ColorsAfterGlobal(v, graph, weights, n - 1))
  }

  /** The number of uncoloured vertices among 0..n-1. */
  function Uncolored(colors: seq<int>, n: nat): (z: nat)
    requires n <= |colors|
    ensures z <= n
  {
    if n == 0 then 0 else Uncolored(colors, n - 1) + (if colors[n - 1] == 0 then 1 else 0)
  }

  /** No uncoloured vertex among 0..n-1 means every one of them carries a colour. */
  lemma {:induction false} NoneUncolored(colors: seq<int>, n: nat)
    requires n <= |colors| && Uncolored(colors, n) == 0
    ensures forall u :: 0 <= u < n ==> colors[u] != 0
  {
    if n > 0 {
      NoneUncolored(colors, n - 1);
    }
  }

  /** All `n` vertices of the starting colouring are uncoloured. */
  lemma {:induction false} AllUncolored(v: nat, n: nat)
    requires n <= v
    ensures Uncolored(seq(v, _ => 0), n) == n
  {
    if n > 0 {
      AllUncolored(v, n - 1);
    }
  }

  /**
   * If `d` uncolours nothing that `c` had coloured, it has no more uncoloured
   * vertices than `c`, and strictly fewer when it colours vertex `b`.
   */
  lemma {:induction false} UncoloredShrinks(c: seq<int>, d: seq<int>, n: nat, b: nat)
    requires n <= |c| == |d|
    requires forall u :: 0 <= u < n && d[u] == 0 ==> c[u] == 0
    ensures Uncolored(d, n) <= Uncolored(c, n)
    ensures b < n && c[b] == 0 && d[b] != 0 ==> Uncolored(d, n) < Uncolored(c, n)
  {
    if n > 0 {
      UncoloredShrinks(c, d, n - 1, b);
    }
  }

  /**
   * One round under the global tie-break, on a graph without self-loops,
   * keeps every colour within 0..V, never uncolours a vertex, and colours at
   * least one vertex whenever one is uncoloured.
   */
  lemma GlobalRoundProgress(v: nat, graph: seq<int>, weights: seq<int>, colors: seq<int>)
    requires |graph| == v * v && |weights| == v && |colors| == v
    requires NoSelfLoops(v, graph) && ColorsWithin(colors, v)
    ensures ColorsWithin(NextColorsGlobal(v, graph, weights, colors), v)
    ensures Uncolored(NextColorsGlobal(v, graph, weights, colors), v) <= Uncolored(colors, v)
    ensures Uncolored(colors, v) > 0 ==>
      Uncolored(NextColorsGlobal(v, graph, weights, colors), v) < Uncolored(colors, v)
  {
    var next := NextColorsGlobal(v, graph, weights, colors);
    forall u | 0 <= u < v
      ensures 0 <= next[u] <= v
      ensures next[u] == 0 ==> colors[u] == 0
    {
      NextColorsGlobalAt(v, graph, weights, colors, u);
      FreeColorWithinFallback(v, graph, colors, u);
    }
    if Uncolored(colors, v) > 0 {
      if forall k :: 0 <= k < v ==> colors[k] != 0 {
        AllColoredNoneUncolored(colors, v);
      }
      GlobalTieBreakProgress(v, graph, weights, colors);
      var b :| 0 <= b < v && SelectedGlobally(v, graph, weights, colors, b);
      NextColorsGlobalAt(v, graph, weights, colors, b);
      FreeColorWithinFallback(v, graph, colors, b);
      UncoloredShrinks(colors, next, v, b);
    } else {
      UncoloredShrinks(colors, next, v, 0);
    }
  }

  /** When every vertex among 0..n-1 is coloured, none is counted as uncoloured. */
  lemma {:induction false} AllColoredNoneUncolored(colors: seq<int>, n: nat)
    requires n <= |colors|
    requires forall k :: 0 <= k < n ==> colors[k] != 0
    ensures Uncolored(colors, n) == 0
  {
    if n > 0 {
      AllColoredNoneUncolored(colors, n - 1);
    }
  }

  /** After `n <= V` rounds under the global tie-break at most `V - n` vertices are uncoloured. */
  lemma {:induction false} ColorsAfterGlobalProgress(v: nat, graph: seq<int>, weights: seq<int>, n: nat)
    requires |graph| == v * v && |weights| == v && n <= v
    requires NoSelfLoops(v, graph)
    ensures ColorsWithin(ColorsAfterGlobal(v, graph, weights, n), v)
    ensures Uncolored(ColorsAfterGlobal(v, graph, weights, n), v) <= v - n
  {
    if n == 0 {
      AllUncolored(v, v);
    } else {
      ColorsAfterGlobalProgress(v, graph, weights, n - 1);
      GlobalRoundProgress(v, graph, weights, ColorsAfterGlobal(v, graph, weights, n - 1));
    }
  }

  /**
   * With both corrections, the fallback number of rounds colours every
   * vertex of a graph without self-loops with a colour in 1..V.
   */
  lemma GlobalRoundsColorAll(v: nat, graph: seq<int>, weights: seq<int>)
    requires |graph| == v * v && |weights| == v
    requires NoSelfLoops(v, graph)
    ensures forall u :: 0 <= u < v ==> 1 <= ColorsAfterGlobal(v, graph, weights, FallbackBound(v))[u] <= FallbackBound(v)
  {
    ColorsAfterGlobalProgress(v, graph, weights, v);
    NoneUncolored(ColorsAfterGlobal(v, graph, weights, v), v);
  }

  /** Under the global tie-break a vertex whose colour changes was uncoloured and avoids its coloured neighbours' colours. */
  lemma GlobalRoundColorsFreshly(v: nat, graph: seq<int>, weights: seq<int>, colors: seq<int>, u: nat, k: nat)
    requires |graph| == v * v && |weights| == v && |colors| == v && u < v && k < v
    requires NextColorsGlobal(v, graph, weights, colors)[u] != colors[u]
    requires Edge(v, graph, u, k) && colors[k] != 0
    ensures colors[u] == 0
    ensures NextColorsGlobal(v, graph, weights, colors)[u] != colors[k]
  {
    NextColorsGlobalAt(v, graph, weights, colors, u);
    NeighborColorsHas(GraphRow(v, graph, u), colors, v, k);
  }

  /** One round under the global tie-break keeps a proper colouring proper on a symmetric graph without self-loops. */
  lemma GlobalRoundPreservesProper(v: nat, graph: seq<int>, weights: seq<int>, colors: seq<int>)
    requires |graph| == v * v && |weights| == v && |colors| == v
    requires Symmetric(v, graph) && NoSelfLoops(v, graph)
    requires Proper(v, graph, colors)
    ensures Proper(v, graph, NextColorsGlobal(v, graph, weights, colors))
  {
    var next := NextColorsGlobal(v, graph, weights, colors);
    forall u, k | 0 <= u < v && 0 <= k < v && Edge(v, graph, u, k) && next[u] > 0 && next[k] > 0
      ensures next[u] != next[k]
    {
      assert u != k;
      assert Edge(v, graph, k, u);
      NextColorsGlobalAt(v, graph, weights, colors, u);
      NextColorsGlobalAt(v, graph, weights, colors, k);
      if next[u] != colors[u] && next[k] != colors[k] {
        GlobalTieBreakIndependent(v, graph, weights, colors, u, k);
      } else if next[u] != colors[u] {
        GlobalRoundColorsFreshly(v, graph, weights, colors, u, k);
      } else if next[k] != colors[k] {
        GlobalRoundColorsFreshly(v, graph, weights, colors, k, u);
      }
    }
  }

  /** Every round under the global tie-break keeps the colouring proper on a symmetric graph without self-loops. */
  lemma {:induction false} ColorsAfterGlobalProper(v: nat, graph: seq<int>, weights: seq<int>, n: nat)
    requires |graph| == v * v && |weights| == v
    requires Symmetric(v, graph) && NoSelfLoops(v, graph)
    ensures Proper(v, graph, ColorsAfterGlobal(v, graph, weights, n))
  {
    if n > 0 {
      ColorsAfterGlobalProper(v, graph, weights, n - 1);
      GlobalRoundPreservesProper(v, graph, weights, ColorsAfterGlobal(v, graph, weights, n - 1));
    }
  }
}
