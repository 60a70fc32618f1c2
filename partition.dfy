/**
 * Vertex partitioning: worker `i` of `npes` owns a contiguous block of
 * `(V + i) / npes` vertices, the blocks follow each other in rank order,
 * and the start of each block is the prefix sum of the block sizes.
 */
module Partition {

  /**
   * `n / d` on natural numbers, counted by repeated subtraction so that the
   * solver sees no division unless `QuotientIsDivision` is called.
   */
  function Quotient(n: nat, d: nat): nat
    requires d >= 1
  {
    if n < d then 0 else 1 + Quotient(n - d, d)
  }

  /** The number of vertices owned by worker `i`: `(V + i) / npes`. */
  function RangeSize(v: nat, npes: nat, i: nat): nat
    requires npes >= 1
  {
    Quotient(v + i, npes)
  }

  /** First vertex of worker `i`, by the closed formula the source uses. */
  function FirstVertex(v: nat, npes: nat, i: nat): int
    requires npes >= 1
  {
    var r := (v + i) % npes;
    (v / npes) * i + r * (if r < i then 1 else 0)
  }

  /** Last vertex of worker `i`, by the closed formula the source uses. */
  function LastVertex(v: nat, npes: nat, i: nat): int
    requires npes >= 1
  {
    var r := (v + i) % npes;
    (i + 1) * (v / npes) + (r + 1) * (if r < i then 1 else 0) - 1
  }

  /** The sizes of the blocks of workers 0..i-1 added up. */
  function PrefixSum(v: nat, npes: nat, i: nat): nat
    requires npes >= 1
  {
    if i == 0 then 0 else PrefixSum(v, npes, i - 1) + RangeSize(v, npes, i - 1)
  }

  /** A multiple of `d` by a factor of at least one is at least `d`. */
  lemma {:induction false} MulAtLeast(a: nat, d: nat)
    requires a >= 1
    ensures a * d >= d
  {
    if a > 1 {
      MulAtLeast(a - 1, d);
      assert a * d == (a - 1) * d + d;
    }
  }

  /** Quotient and remainder are determined by `n == q * d + r` with `0 <= r < d`. */
  lemma DivModUnique(n: int, d: int, q: int, r: int)
    requires d > 0 && 0 <= r < d && n == q * d + r
    ensures n / d == q && n % d == r
  {
    var q0, r0 := n / d, n % d;
    assert (q0 - q) * d == r - r0;
    if q0 - q >= 1 {
      MulAtLeast(q0 - q, d);
    }
    if q - q0 >= 1 {
      MulAtLeast(q - q0, d);
    }
  }

  /** Repeated subtraction computes the integer quotient. */
  lemma {:induction false} QuotientIsDivision(n: nat, d: nat)
    requires d >= 1
    ensures Quotient(n, d) == n / d
  {
    if n < d {
      DivModUnique(n, d, 0, n);
    } else {
      QuotientIsDivision(n - d, d);
      DivModUnique(n, d, (n - d) / d + 1, (n - d) % d);
    }
  }

  /** Multiplication distributes over addition. */
  lemma Distribute(a: int, b: int, c: int)
    ensures (a + b) * c == a * c + b * c
  {
  }

  /**
   * How `(V + i)` divides by `npes`, in terms of `q = V / npes` and
   * `s = V % npes`: the quotient gains one exactly when `s + i` reaches `npes`.
   */
  lemma Split(v: nat, npes: nat, i: nat)
    requires npes >= 1 && i <= npes
    ensures v % npes + i < npes ==> (v + i) / npes == v / npes && (v + i) % npes == v % npes + i
    ensures v % npes + i >= npes ==>
      (v + i) / npes == v / npes + 1 && (v + i) % npes == v % npes + i - npes
  {
    var q, s := v / npes, v % npes;
    if s + i < npes {
      DivModUnique(v + i, npes, q, s + i);
    } else {
      assert v + i == (q + 1) * npes + (s + i - npes);
      DivModUnique(v + i, npes, q + 1, s + i - npes);
    }
  }

  /** Worker `i` gets `V / npes` vertices plus one exactly when `(V + i) % npes < i`. */
  lemma RangeSizeSplit(v: nat, npes: nat, i: nat)
    requires npes >= 1 && i < npes
    ensures RangeSize(v, npes, i) == v / npes + (if (v + i) % npes < i then 1 else 0)
    ensures RangeSize(v, npes, i) == v / npes + 1 <==> i >= npes - v % npes
  {
    QuotientIsDivision(v + i, npes);
    Split(v, npes, i);
  }

  /** Any two block sizes differ by at most one. */
  lemma RangeSizesBalanced(v: nat, npes: nat, i: nat, j: nat)
    requires npes >= 1 && i < npes && j < npes
    ensures -1 <= RangeSize(v, npes, i) - RangeSize(v, npes, j) <= 1
  {
    RangeSizeSplit(v, npes, i);
    RangeSizeSplit(v, npes, j);
  }

  /** The source's first and last vertex span exactly `RangeSize` vertices. */
  lemma LastVertexSpan(v: nat, npes: nat, i: nat)
    requires npes >= 1 && i < npes
    ensures LastVertex(v, npes, i) == FirstVertex(v, npes, i) + RangeSize(v, npes, i) - 1
  {
    RangeSizeSplit(v, npes, i);
    var q := v / npes;
    assert (i + 1) * q == i * q + q;
  }

  /** The start formula, with the remainder case written out. */
  lemma FirstVertexClosedForm(v: nat, npes: nat, i: nat)
    requires npes >= 1 && i <= npes
    ensures FirstVertex(v, npes, i) ==
      (v / npes) * i + (if v % npes + i >= npes then v % npes + i - npes else 0)
  {
    Split(v, npes, i);
  }

  /** The start formula equals the running prefix sum of the block sizes. */
  lemma {:induction false} FirstVertexIsPrefixSum(v: nat, npes: nat, i: nat)
    requires npes >= 1 && i <= npes
    ensures FirstVertex(v, npes, i) == PrefixSum(v, npes, i)
  {
    if i > 0 {
      FirstVertexIsPrefixSum(v, npes, i - 1);
      FirstVertexClosedForm(v, npes, i - 1);
      FirstVertexClosedForm(v, npes, i);
      RangeSizeSplit(v, npes, i - 1);
      Split(v, npes, i - 1);
      var q := v / npes;
      assert q * i == q * (i - 1) + q;
    }
  }

  /** The blocks together hold exactly the `V` vertices. */
  lemma BlocksCoverAll(v: nat, npes: nat)
    requires npes >= 1
    ensures PrefixSum(v, npes, npes) == v
  {
    FirstVertexIsPrefixSum(v, npes, npes);
    FirstVertexClosedForm(v, npes, npes);
  }

  /** Block starts never decrease with the rank. */
  lemma {:induction false} PrefixSumMonotone(v: nat, npes: nat, i: nat, j: nat)
    requires npes >= 1 && i <= j
    ensures PrefixSum(v, npes, i) <= PrefixSum(v, npes, j)
    decreases j - i
  {
    if i < j {
      PrefixSumMonotone(v, npes, i, j - 1);
    }
  }

  /** The first worker at or after `i` whose block contains vertex `u`. */
  function OwnerFrom(v: nat, npes: nat, u: nat, i: nat): (p: nat)
    requires npes >= 1 && i < npes && PrefixSum(v, npes, i) <= u < v
    ensures i <= p < npes
    ensures PrefixSum(v, npes, p) <= u < PrefixSum(v, npes, p + 1)
    decreases npes - i
  {
    BlocksCoverAll(v, npes);
    if u < PrefixSum(v, npes, i + 1) then i else OwnerFrom(v, npes, u, i + 1)
  }

  /** The worker whose block contains vertex `u`. */
  function Owner(v: nat, npes: nat, u: nat): (p: nat)
    requires npes >= 1 && u < v
    ensures p < npes && PrefixSum(v, npes, p) <= u < PrefixSum(v, npes, p + 1)
  {
    OwnerFrom(v, npes, u, 0)
  }

  /** The position of vertex `u` inside its owner's block. */
  function LocalIndex(v: nat, npes: nat, u: nat): (j: nat)
    requires npes >= 1 && u < v
    ensures j <= u && j < RangeSize(v, npes, Owner(v, npes, u))
  {
    u - PrefixSum(v, npes, Owner(v, npes, u))
  }

  /** Blocks are disjoint: only one worker's block contains a given vertex. */
  lemma OwnerUnique(v: nat, npes: nat, u: nat, p: nat)
    requires npes >= 1 && u < v && p < npes
    requires PrefixSum(v, npes, p) <= u < PrefixSum(v, npes, p + 1)
    ensures Owner(v, npes, u) == p
  {
    var o := Owner(v, npes, u);
    if p < o {
      PrefixSumMonotone(v, npes, p + 1, o);
    } else if o < p {
      PrefixSumMonotone(v, npes, o + 1, p);
    }
  }

  /** A block never reaches past the last vertex. */
  lemma BlockInside(v: nat, npes: nat, p: nat)
    requires npes >= 1 && p < npes
    ensures PrefixSum(v, npes, p + 1) <= v
  {
    PrefixSumMonotone(v, npes, p + 1, npes);
    BlocksCoverAll(v, npes);
  }

  /**
   * First and last vertex of worker `i`, as the partition loop computes
   * them: the block starts at the prefix sum and spans `(V + i) / npes`.
   */
  method WorkerBounds(v: nat, npes: nat, numVPerP: int, i: nat) returns (firstV: int, lastV: int)
    requires npes >= 1 && i < npes && numVPerP == v / npes
    ensures firstV == PrefixSum(v, npes, i)
    ensures lastV - firstV + 1 == RangeSize(v, npes, i)
  {
    var remainderVPerP := (v + i) % npes;
    firstV := numVPerP * i + remainderVPerP * (if remainderVPerP < i then 1 else 0);
    lastV := (i + 1) * numVPerP + (remainderVPerP + 1) * (if remainderVPerP < i then 1 else 0) - 1;
    assert firstV == FirstVertex(v, npes, i) && lastV == LastVertex(v, npes, i);
    LastVertexSpan(v, npes, i);
    FirstVertexIsPrefixSum(v, npes, i);
  }

  /** The block and slice sizes of workers 0..n-1 are filled in. */
  ghost predicate SizesFilled(v: nat, npes: nat, n: nat, range: array<int>, pGraphSize: array<int>)
    requires npes >= 1 && n <= range.Length && n <= pGraphSize.Length
    reads range, pGraphSize
  {
    forall k :: 0 <= k < n ==>
      range[k] == RangeSize(v, npes, k) && pGraphSize[k] == RangeSize(v, npes, k) * v
  }

  /** The vertex and slice offsets of workers 0..n-1 are filled in. */
  ghost predicate OffsetsFilled(v: nat, npes: nat, n: nat, offsets: array<int>, vertexOffsets: array<int>)
    requires npes >= 1 && n <= offsets.Length && n <= vertexOffsets.Length
    reads offsets, vertexOffsets
  {
    forall k :: 0 <= k < n ==>
      vertexOffsets[k] == PrefixSum(v, npes, k) && offsets[k] == PrefixSum(v, npes, k) * v
  }

  /**
   * The partition loop: sizes, adjacency-slice sizes, adjacency-slice offsets
   * and vertex offsets of every worker, as fresh arrays.
   */
  method ComputePartition(v: nat, npes: nat)
    returns (range: array<int>, pGraphSize: array<int>, offsets: array<int>, vertexOffsets: array<int>)
    requires npes >= 1
    ensures range.Length == npes && pGraphSize.Length == npes
    ensures offsets.Length == npes && vertexOffsets.Length == npes
    ensures forall i :: 0 <= i < npes ==>
      && range[i] == RangeSize(v, npes, i)
      && pGraphSize[i] == RangeSize(v, npes, i) * v
      && vertexOffsets[i] == PrefixSum(v, npes, i)
      && offsets[i] == PrefixSum(v, npes, i) * v
  {
    pGraphSize := new int[npes];
    offsets := new int[npes];
    vertexOffsets := new int[npes];
    range := new int[npes];
    var numVPerP := v / npes;
    var i := 0;
    while i < npes
      invariant i <= npes
      invariant SizesFilled(v, npes, i, range, pGraphSize)
      invariant OffsetsFilled(v, npes, i, offsets, vertexOffsets)
    {
      var firstV, lastV := WorkerBounds(v, npes, numVPerP, i);
      range[i] := lastV - firstV + 1;
      pGraphSize[i] := range[i] * v;
      FillOffsets(v, npes, i, range, pGraphSize, offsets, vertexOffsets);
      i := i + 1;
    }
  }

  /** The offset half of one pass of the partition loop: running sums up to worker `i`. */
  method FillOffsets(v: nat, npes: nat, i: nat,
    range: array<int>, pGraphSize: array<int>, offsets: array<int>, vertexOffsets: array<int>)
    requires npes >= 1 && i < npes
    requires range.Length == pGraphSize.Length == offsets.Length == vertexOffsets.Length == npes
    requires offsets != vertexOffsets
    requires range != offsets && range != vertexOffsets && pGraphSize != offsets && pGraphSize != vertexOffsets
    requires SizesFilled(v, npes, i + 1, range, pGraphSize)
    requires OffsetsFilled(v, npes, i, offsets, vertexOffsets)
    modifies offsets, vertexOffsets
    ensures OffsetsFilled(v, npes, i + 1, offsets, vertexOffsets)
    ensures forall k :: i < k < npes ==> offsets[k] == old(offsets[k]) && vertexOffsets[k] == old(vertexOffsets[k])
  {
    ghost var offs, starts := offsets[..], vertexOffsets[..];
    offsets[0] := 0;
    vertexOffsets[0] := 0;
    if i > 0 {
      NextOffset(v, npes, i);
      offsets[i] := offsets[i - 1] + pGraphSize[i - 1];
      vertexOffsets[i] := vertexOffsets[i - 1] + range[i - 1];
    }
    forall k | 0 < k < i
      ensures vertexOffsets[k] == PrefixSum(v, npes, k) && offsets[k] == PrefixSum(v, npes, k) * v
    {
      assert offsets[k] == offs[k] && vertexOffsets[k] == starts[k];
    }
  }

  /** The running sums grow by the previous block: in vertices, and in matrix entries. */
  lemma NextOffset(v: nat, npes: nat, i: nat)
    requires npes >= 1 && i >= 1
    ensures PrefixSum(v, npes, i) == PrefixSum(v, npes, i - 1) + RangeSize(v, npes, i - 1)
    ensures PrefixSum(v, npes, i) * v == PrefixSum(v, npes, i - 1) * v + RangeSize(v, npes, i - 1) * v
  {
    Distribute(PrefixSum(v, npes, i - 1), RangeSize(v, npes, i - 1), v);
  }
}
