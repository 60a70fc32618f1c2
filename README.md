# Jones–Plassmann graph colouring, modelled in Dafny

The program colours the vertices of an undirected graph in rounds, spread over
`npes` MPI workers. The graph is a `V * V` 0/1 adjacency matrix. Every vertex
carries a weight. Colour 0 means "not yet coloured".

Setup:

- Worker `i` owns a contiguous block of `(V + i) / npes` vertices.
- Each worker receives the adjacency rows of its own vertices.

In each of `chromaticity_upper` rounds, every worker checks each of its
vertices:

- The vertex is a local maximum when no uncoloured neighbour outranks it. A
  neighbour outranks it with a larger weight, or with an equal weight and a
  larger index.
- If the vertex is a local maximum and still uncoloured, it takes the smallest
  positive colour that no coloured neighbour has. The code finds it by sorting
  the neighbour colours with `qsort` and scanning for the first gap.
- The new colours are gathered into the shared colour array, which is then
  broadcast.

The model has eight modules, one per file:

- `Palette` (`palette.dfy`) covers the comparator, the in-place sort of the
  neighbour-colour buffer, the minimum excluded colour (`Mex`) and the gap
  scan. The scan is proved to return `Mex` even though it reads the zero
  padding past the filled part of its length-`V` buffer.
- `Partition` (`partition.dfy`) covers the block arithmetic and the loop that
  fills `range`, `p_graph_size`, `offsets` and `vertex_offsets`.
- `ColoringRounds` (`rounds.dfy`) specifies one round as a function of the
  previous colours (`NextColors`), and the whole run as `ColorsAfter`. It
  proves:
  - a round selects an independent set;
  - colours, once given, never change;
  - properness is preserved;
  - the colour bound after `n` rounds.
- `JonesPlassmann` (`jones_plassmann.dfy`) is the imperative code: the
  neighbour scan with its early exit, the per-vertex colouring, each worker's
  pass, the gather, the round loop and the surrounding driver. Each method is
  proved against the functions of `ColoringRounds`.
- `GraphInput` (`graph_input.dfy`) covers the symmetric edge insertion and the
  fallback round count of the graph reader.
- `TieBreak`, `CorrectedRounds` and `Scenarios` hold the two findings below
  and the worked examples.

How the MPI collectives are played out one after the other:

- All workers of a round read the same frozen `colors`.
- Each worker's `j_colors` buffer is laid at its block's offset inside one
  array of `V` cells. A worker writes only its own block. The gather becomes a
  copy of that array into `colors`.
- The broadcast that follows the gather is a no-op once there is a single copy.
- At the start of each round the buffer equals `colors`, and this is proved as
  a loop invariant. That is why a vertex that is not re-coloured keeps its
  previous colour.

Two properties of the code shape the model:

- Worker `i` gets `(V + i) / npes` vertices, as the comment at lines 321-323
  says. The extra vertices therefore go to the last `V % npes` workers.
  `Partition.RangeSizeSplit` proves this, and `Scenarios.TenOverFour` shows it
  for ten vertices on four workers.
- The comment at lines 179-180 says that on equal weights the vertex with the
  higher id wins. The code compares a neighbour's global index with the
  vertex's index inside its own block. See the findings.

## Model

| member | source | states |
|---|---|---|
| Palette.Compare | MpiVersion/graphcoloring.c:27-33 | the comparator returns -1, 0 or 1 exactly when a < b, a == b or a > b |
| Palette.CompareAntisymmetric | MpiVersion/graphcoloring.c:27-33 | swapping the arguments negates the comparison |
| Palette.SortPrefix | MpiVersion/graphcoloring.c:200 | sorting the first `num_colors` cells leaves them sorted under the comparator, as a permutation of the old cells, with the rest of the buffer unchanged |
| Palette.Mex | MpiVersion/graphcoloring.c:187-198 | the chosen colour is positive, absent from the neighbours' colours, and every smaller positive colour is present |
| Palette.MexIsUnique | MpiVersion/graphcoloring.c:187-198 | those three properties determine the colour |
| Palette.MexPermutation | MpiVersion/graphcoloring.c:200 | the colour depends only on the multiset of neighbour colours, so sorting first does not change it |
| Palette.MexAtMostLengthPlusOne | MpiVersion/graphcoloring.c:192-198 | the colour is at most the number of coloured neighbours plus one |
| Palette.MexAtMostBoundPlusOne | MpiVersion/graphcoloring.c:192-198 | if no neighbour colour exceeds b, the colour is at most b + 1 |
| Palette.GapScan | MpiVersion/graphcoloring.c:201-213 | on a sorted positive prefix followed by zero padding, the scan up to `V` returns exactly the minimum excluded positive colour |
| Partition.RangeSize | MpiVersion/graphcoloring.c:321-335 | the number of vertices of worker i, `(V + i) / npes` |
| Partition.FirstVertex | MpiVersion/graphcoloring.c:330-332 | the first vertex of worker i by the closed formula `(V / npes) * i + r * (r < i)` with `r = (V + i) % npes` |
| Partition.LastVertex | MpiVersion/graphcoloring.c:334 | the last vertex of worker i by the source's formula |
| Partition.PrefixSum | MpiVersion/graphcoloring.c:338-342 | the running sum `vertex_offsets[i]` of the block sizes of workers 0..i-1 |
| Partition.Owner | MpiVersion/graphcoloring.c:329-343 | the worker whose block, between two consecutive running sums, contains a vertex |
| Partition.RangeSizeSplit | MpiVersion/graphcoloring.c:321-335 | worker i gets `V / npes` vertices plus one exactly when `(V + i) % npes < i`, that is exactly when i is among the last `V % npes` workers |
| Partition.RangeSizesBalanced | MpiVersion/graphcoloring.c:321-335 | any two block sizes differ by at most one |
| Partition.LastVertexSpan | MpiVersion/graphcoloring.c:332-335 | `last_v == first_v + range[i] - 1` for the source's formulas |
| Partition.FirstVertexIsPrefixSum | MpiVersion/graphcoloring.c:328-343 | the closed start formula equals the running sum `vertex_offsets[i]` of the block sizes |
| Partition.BlocksCoverAll | MpiVersion/graphcoloring.c:321-347 | the block sizes add up to V |
| Partition.OwnerUnique | MpiVersion/graphcoloring.c:329-343 | the blocks are disjoint: exactly one worker owns each vertex |
| Partition.LocalIndex | MpiVersion/graphcoloring.c:162-164 | the index of a vertex inside its block is at most its global index and below the block size |
| Partition.WorkerBounds | MpiVersion/graphcoloring.c:328-335 | the first and last vertex of worker i, by the formulas of the partition loop (the start formula recurs at lines 157-159): the first is the block start and the last closes a block of `(V + i) / npes` vertices |
| Partition.FillOffsets | MpiVersion/graphcoloring.c:338-343 | one pass of the loop extends the running sums `vertex_offsets` and `offsets == vertex_offsets * V` by one worker and leaves the cells of later workers unchanged |
| Partition.ComputePartition | MpiVersion/graphcoloring.c:324-347 | the loop fills `range`, `p_graph_size`, `offsets` and `vertex_offsets` with the block sizes, slice sizes and both prefix sums |
| ColoringRounds.IsLocalMax | MpiVersion/graphcoloring.c:172-186 | no uncoloured neighbour has a larger weight, or an equal weight and a neighbour index above the vertex's local index |
| ColoringRounds.NeighborColors | MpiVersion/graphcoloring.c:174-178 | the colours of the coloured neighbours, in vertex order, as the scan appends them |
| ColoringRounds.Decide | MpiVersion/graphcoloring.c:187-214 | a local maximum that is still uncoloured takes the smallest positive colour missing among its neighbours; any other vertex keeps its colour |
| ColoringRounds.Selected | MpiVersion/graphcoloring.c:190 | a vertex is coloured in a round when it is a local maximum under its worker's local index and still uncoloured |
| ColoringRounds.FreeColor | MpiVersion/graphcoloring.c:200-213 | the colour a selected vertex takes: the minimum excluded colour of its neighbours' colours |
| ColoringRounds.NextColor | MpiVersion/graphcoloring.c:162-214 | the decision for one vertex, made by its owner from its row, weight and local index against the previous colours |
| ColoringRounds.NextColors | MpiVersion/graphcoloring.c:162-231 | the colours of all V vertices after one round, every decision reading the same previous colours |
| ColoringRounds.ColorsAfter | MpiVersion/graphcoloring.c:149-155 | the colours after n rounds, starting from all zero |
| ColoringRounds.Row | MpiVersion/graphcoloring.c:174 | row j of a row-major matrix holds entry `j*V+k` at position k |
| ColoringRounds.NeighborColorsHas | MpiVersion/graphcoloring.c:174-178 | every coloured neighbour's colour is collected |
| ColoringRounds.NeighborColorsPositive | MpiVersion/graphcoloring.c:176-177 | only positive colours are collected when no colour is negative |
| ColoringRounds.NextColorsAt | MpiVersion/graphcoloring.c:162-214 | in a round, a selected vertex takes its free colour and every other vertex keeps its colour |
| ColoringRounds.RoundKeepsColored | MpiVersion/graphcoloring.c:190 | a coloured vertex keeps its colour through a round |
| ColoringRounds.RoundColorsFreshly | MpiVersion/graphcoloring.c:187-214 | a vertex whose colour changes was uncoloured; its new colour is positive, differs from every coloured neighbour's colour and is at most their count plus one |
| ColoringRounds.RoundColorsSurrounded | MpiVersion/graphcoloring.c:172-190 | an uncoloured vertex whose neighbours are all coloured is coloured in the next round |
| ColoringRounds.RoundSelectsIndependentSet | MpiVersion/graphcoloring.c:172-190 | two distinct adjacent uncoloured vertices are never both selected in one round, even with the local-index tie-break |
| ColoringRounds.RoundPreservesProper | MpiVersion/graphcoloring.c:172-231 | on a symmetric matrix without self-loops a round keeps a proper colouring proper |
| ColoringRounds.RoundRaisesBoundByOne | MpiVersion/graphcoloring.c:200-214 | a round raises the largest colour by at most one |
| ColoringRounds.ColorsAfterWithin | MpiVersion/graphcoloring.c:149-155 | after n rounds every colour lies in 0..n |
| ColoringRounds.ColorsAfterProper | MpiVersion/graphcoloring.c:155-231 | every round leaves a proper colouring on a symmetric matrix without self-loops |
| ColoringRounds.ColorsAfterKeepsColor | MpiVersion/graphcoloring.c:155-190 | a colour given in round m is still there after any later round n |
| JonesPlassmann.SliceRow | MpiVersion/graphcoloring.c:351-353 | row j of the rows scattered to worker p is the graph row of that worker's j-th vertex |
| JonesPlassmann.Scatter | MpiVersion/graphcoloring.c:349-353 | worker p receives the `p_graph_size[p]` matrix entries starting at `offsets[p]` |
| JonesPlassmann.ScanNeighbours | MpiVersion/graphcoloring.c:164-186 | the neighbour loop, with its early exit, decides exactly whether the vertex is a local maximum; when it is, the buffer holds the coloured neighbours' colours followed by zeros |
| JonesPlassmann.ColorVertex | MpiVersion/graphcoloring.c:164-214 | the buffer cell of the vertex is set to its free colour if it is a local maximum and uncoloured, and nothing else in the buffer changes |
| JonesPlassmann.WorkerView | MpiVersion/graphcoloring.c:157-164 | the decision a worker makes from its slice and local index is the round's decision for that global vertex |
| JonesPlassmann.WorkerPass | MpiVersion/graphcoloring.c:162-227 | a worker writes the round's decisions into its own block of the buffer and nowhere else |
| JonesPlassmann.WorkersDecide | MpiVersion/graphcoloring.c:155-227 | after every worker's pass the buffer holds the next round's colours |
| JonesPlassmann.Gather | MpiVersion/graphcoloring.c:228-231 | each worker's block lands at its vertex offset, so the shared colours equal the buffer |
| JonesPlassmann.Round | MpiVersion/graphcoloring.c:155-231 | one round leaves both the shared colours and the buffer equal to the next round's colours |
| JonesPlassmann.Rounds | MpiVersion/graphcoloring.c:137-242 | from zero colours and a zeroed buffer, the loop ends with the colours after `chromaticity_upper` rounds, or none if it is negative |
| JonesPlassmann.ColorGraph | MpiVersion/graphcoloring.c:324-381 | the driver's colours are the colours after the rounds; they form a proper colouring on a symmetric matrix without self-loops, with every colour at most the round count |
| GraphInput.EdgeEntry | MpiVersion/graphcoloring.c:20-22 | an edge (a, b) is the matrix entry at `a*V+b` being 1 |
| GraphInput.WithEdge | MpiVersion/graphcoloring.c:95-96 | the matrix after an edge line for (r, c): both entries set to 1 |
| GraphInput.WithEdgeEdges | MpiVersion/graphcoloring.c:95-96 | after an edge line the edges are the old ones plus (r, c) and (c, r) |
| GraphInput.WithEdgeKeepsSymmetric | MpiVersion/graphcoloring.c:95-96 | inserting an edge both ways keeps a symmetric matrix symmetric |
| GraphInput.InsertEdge | MpiVersion/graphcoloring.c:95-96 | the two writes of an edge line set exactly the two entries and keep the matrix symmetric |
| GraphInput.FallbackBoundAsWritten | MpiVersion/graphcoloring.c:105-110 | the fallback round count as the reader sets it: `V - 1` for even V and `V` for odd V |
| GraphInput.FallbackBound | MpiVersion/graphcoloring.c:101-104 | the fallback the comment aims at, the chromatic number `V` of the complete graph on V vertices |
| GraphInput.FreeColorWithinFallback | MpiVersion/graphcoloring.c:101-110 | without self-loops every colour a round can pick lies in 1..V |
| TieBreak.SelectedGlobally | MpiVersion/graphcoloring.c:179-181 | selection with ties broken on the vertex's global index, as the comment at 179-180 describes |
| TieBreak.TwoWorkersOnFour | MpiVersion/graphcoloring.c:157-164 | with four vertices on two workers, vertex 1 has local index 1 and vertex 2 has local index 0 |
| TieBreak.LocalTieBreakStalls | MpiVersion/graphcoloring.c:179-184 | with two workers, the single edge 1-2 and equal weights, vertices 1 and 2 stay uncoloured after any number of rounds |
| TieBreak.GlobalTieBreakProgress | MpiVersion/graphcoloring.c:179-181 | with ties broken on global indices, every round that starts with an uncoloured vertex selects one |
| TieBreak.GlobalTieBreakIndependent | MpiVersion/graphcoloring.c:179-181 | the global tie-break still never selects two adjacent vertices in one round |
| TieBreak.GlobalTieBreakColorsPath12 | MpiVersion/graphcoloring.c:179-181 | on the stalling input the global tie-break selects vertex 2 in the first round |
| CorrectedRounds.NextColorsGlobal | MpiVersion/graphcoloring.c:162-231 | one round with the global tie-break: each vertex's decision against the same previous colours |
| CorrectedRounds.ColorsAfterGlobal | MpiVersion/graphcoloring.c:149-155 | the colours after n rounds with the global tie-break, starting from all zero |
| CorrectedRounds.NextColorsGlobalAt | MpiVersion/graphcoloring.c:172-214 | with the global tie-break, a selected vertex takes its free colour and every other vertex keeps its colour |
| CorrectedRounds.GlobalRoundProgress | MpiVersion/graphcoloring.c:155-231 | with the global tie-break a round never uncolours a vertex, keeps colours within 0..V, and colours at least one vertex while any is uncoloured |
| CorrectedRounds.ColorsAfterGlobalProgress | MpiVersion/graphcoloring.c:149-155 | with the global tie-break, after n <= V rounds at most V - n vertices are uncoloured |
| CorrectedRounds.GlobalRoundsColorAll | MpiVersion/graphcoloring.c:101-110 | with both corrections, `V` rounds give every vertex of a self-loop-free graph a colour in 1..V |
| CorrectedRounds.ColorsAfterGlobalProper | MpiVersion/graphcoloring.c:155-231 | with the global tie-break every round leaves a proper colouring on a symmetric matrix without self-loops |
| Scenarios.MexExamples | MpiVersion/graphcoloring.c:200-213 | the neighbour colours {1,1}, {2,3}, {1,2,4}, {1,2,3} and {} give colours 2, 1, 3, 4 and 1 |
| Scenarios.TenOverFour | MpiVersion/graphcoloring.c:328-335 | ten vertices on four workers give blocks of 2, 2, 3 and 3 vertices starting at 0, 2, 4 and 7 |
| Scenarios.K2FallbackAsWrittenFalls | MpiVersion/graphcoloring.c:105-110 | for the complete graph on two vertices the fallback as written is one round, which leaves a vertex uncoloured |
| Scenarios.K2FallbackColorsBoth | MpiVersion/graphcoloring.c:105-110 | the corrected fallback of two rounds colours both vertices |
| Scenarios.PathSecondRound | MpiVersion/graphcoloring.c:149-214 | the path 0-1-2 with weights 100, 50 and 80 has colours [1, 2, 1] after two rounds |

## Left out

- MPI start-up, rank and size queries, the scatter, gather, broadcast and reduction are not run concurrently. They are played out one after the other as described above. Message ordering and failure are not modelled.
- The per-worker `j_colors` buffers are one array of `V` cells, each worker's buffer at its block's offset. Separate allocations and aliasing between them are not modelled.
- The graph file parser in `read_graph` (lines 38-116) is not modelled, apart from the edge insertion and the fallback round count. Its string handling and the "max degree" and "chromatic_upper_bound" lines are not modelled. The matrix, `V` and the round count are inputs.
- `write_colors`, the report of uncoloured vertices, timing and the command-line handling are output, clocks and argument parsing with no effect on the colouring.
- Weights come from `rand()` in the source. They are an arbitrary integer sequence here.
- The `DEBUG_*` blocks and `malloc`/`free` are not modelled.
- The source uses 32-bit `int`. The model uses unbounded integers, so an overflow in `V * V`, `range[i] * V` or `rand() % (V * 1000)` is not captured.
- Partition.RangeSize: the block size `(V + i) / npes` is written as repeated subtraction (`Quotient`). Partition.QuotientIsDivision proves it equal to integer division.
- Palette.SortPrefix: `qsort` is modelled by an insertion sort whose contract is "sorted permutation of the prefix". The C library's algorithm itself is not modelled.
- JonesPlassmann.ColorGraph: the source does not promise that every vertex is coloured after the loop. With the local-index tie-break that can fail, and the model proves it can (`TieBreak.LocalTieBreakStalls`). Completeness is proved only under both corrections, in `CorrectedRounds`.

## Findings

| source | as written | input that shows it | evidently intended | confidence | as-written member | corrected member |
|---|---|---|---|---|---|---|
| MpiVersion/graphcoloring.c:105-110 | without a degree line in the file, the number of rounds is `V - 1` for even `V` (the comment calls this the chromaticity of the complete graph, but `V - 1` is its edge-colouring number) | the complete graph on 2 vertices gets 1 round, and one round can colour only one of two adjacent vertices, so a vertex stays at colour 0 | `V` rounds, the chromatic number of the complete graph on `V` vertices and enough colours for any graph | not executed | GraphInput.FallbackBoundAsWritten, Scenarios.K2FallbackAsWrittenFalls | GraphInput.FallbackBound, GraphInput.FreeColorWithinFallback, Scenarios.K2FallbackColorsBoth, CorrectedRounds.GlobalRoundsColorAll |
| MpiVersion/graphcoloring.c:181 | the equal-weight tie-break compares the neighbour's global index `k` with the vertex's index `j` inside its block | 4 vertices on 2 workers, single edge 1-2, equal weights on 1 and 2: vertex 1 (local index 1) defers to 2, and vertex 2 (local index 0) defers to 1, in every round | compare with the global index `first_v + j`, so the higher id wins and every round colours some vertex | not executed | TieBreak.LocalTieBreakStalls | TieBreak.SelectedGlobally, TieBreak.GlobalTieBreakProgress, CorrectedRounds.GlobalRoundsColorAll |

The main model (`ColoringRounds`, `JonesPlassmann`) keeps the tie-break as
written, so that it describes the program's actual behaviour. The corrected
rule is used by `CorrectedRounds`, which proves that the two corrections
together colour every vertex.
