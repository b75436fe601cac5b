# Longest common byte strand across files — a Dafny model

`Eluvio_Challenge.py` finds the longest run of contiguous bytes that occurs
in at least two of a set of files. It reports every pair of files that
reaches that length, with the offset of the run in each file. There are
three parts:

- `least_of_two(A, B)`, the pairwise engine. It is the classic
  longest-common-substring dynamic program over the cells
  `M[i][j] = M[i-1][j-1] + 1` when `A[i] == B[j]`, else 0. It scans row by
  row (i over A, then j over B) and keeps the first maximal cell (strict
  `>`).
- The `Graph` / `Edge` / `Node` classes. These form the complete graph over
  the files, with one mutable edge per pair `i < j` in lexicographic order.
- `graph_pairs`. It fills every edge with the engine, then in one linear
  scan keeps `max_val` and `max_list`.

The model follows the source's imperative form:

- `PairwiseLcs.LeastOfTwo` is a method with the nested loops, over two
  rolling row buffers (`array<nat>`).
- `ComparisonGraph` has classes whose methods update fields in place.
- `GlobalMax.GraphPairs` builds the graph, fills each edge through the
  `Edge` setters and selects the winners in a loop.

These methods are proved against pure reference definitions:

- `LongestRun.LongestCommonRun` is a brute force over every pair of start
  offsets.
- `LongestRun.Ending` is the DP cell.
- `LongestRun.IsFirstLongest` is the row-major first-maximal-cell rule.
- `ComparisonGraph.Pairs` lists the vertex pairs in lexicographic order.
- `GlobalMax.SelectUpTo` is the selection pass as a recursive function.

The dict-keyed loops as the source writes them are modelled separately,
in `DictKeyed`, without `curr_max`, which only feeds the signature. It is wrong on small inputs (see
"## Findings"), so the rest of the model uses the recurrence that the
comments at `Eluvio_Challenge.py:44-48` describe. Those rows are stored in
two plain buffers.

Files:

- `common.dfy`: bytes, the `IndexError` result and `Max`.
- `longest_run.dfy`: the reference definitions and their lemmas.
- `pairwise_lcs.dfy`: the engine.
- `dict_keyed.dfy`: the as-written dict version and its counterexamples.
- `comparison_graph.dfy`: the graph classes.
- `global_max.dfy`: `graph_pairs`.

Three behaviours of the code are modelled as they are:

- With fewer than two files, `graph_pairs` returns an empty list
  (`GraphPairs` ensures `r == Ok([])`). `main` then fails when it reads
  `max_list[0]` at `Eluvio_Challenge.py:113`.
- When the first edge has length 0, the equal-length branch at
  `Eluvio_Challenge.py:94` indexes the still-empty `max_list` and raises
  `IndexError`. This is modelled as `Err(IndexError)`.
- The signature is the constant 0 that the loop at
  `Eluvio_Challenge.py:71-74` leaves in `max_byte`.

## Model

| member | source | states |
|---|---|---|
| PairwiseLcs.LeastOfTwo | Eluvio_Challenge.py:49-76 | The length is the longest common run of A and B, and the offsets start a common run of that length. Length and offsets are those of the first DP cell in row-major order that reaches the maximum. Empty A or B gives (0, 0, 0). The fourth result is 0. |
| PairwiseLcs.Signature | Eluvio_Challenge.py:71-74 | The loop over `range(len(curr_max), 0)` never runs, so `max_byte` is 0 for every run. |
| PairwiseLcs.PyRange | Eluvio_Challenge.py:72 | `range(start, stop)` yields `stop - start` consecutive values from `start`, or none when `start >= stop`. |
| PairwiseLcs.VisitCell | Eluvio_Challenge.py:66-70 | A visit with strict `>` keeps the first-maximal-cell invariant one cell further, whether or not the cell beats the maximum. |
| PairwiseLcs.RowComplete | Eluvio_Challenge.py:58-60 | Finishing row i keeps the invariant at the start of row i + 1. |
| LongestRun.MatchFrom | Eluvio_Challenge.py:44-45 | Bytes match for r positions from (i, j), and the next pair of bytes (if any) differs. |
| LongestRun.LongestCommonRunIsLongest | Eluvio_Challenge.py:44-48 | Some common run reaches the brute-force length, and no common run at any pair of offsets is longer. |
| LongestRun.LongestCommonRunSymmetric | Eluvio_Challenge.py:44-48 | The longest common run of A and B has the same length as that of B and A. |
| LongestRun.LongestCommonRunSelf | Eluvio_Challenge.py:44-48 | A sequence shares with itself a longest run of its whole length. |
| LongestRun.Ending | Eluvio_Challenge.py:61-65 | The DP cell M[i][j] is at most i + 1 and at most j + 1. |
| LongestRun.EndingIsRun | Eluvio_Challenge.py:61-65 | M[i][j] bytes ending at (i, j) are a common run. |
| LongestRun.EndingIsMaximal | Eluvio_Challenge.py:61-65 | The run ending at (i, j) cannot be extended to the left. |
| LongestRun.EndingCovers | Eluvio_Challenge.py:61-65 | Every common run of length len makes the cell at its last bytes at least len. |
| LongestRun.FirstLongestIsLongest | Eluvio_Challenge.py:58-70 | The first maximal cell gives non-negative offsets that start a common run whose length is the brute-force longest. |
| LongestRun.NothingLongerBefore | Eluvio_Challenge.py:66-70 | No cell before the recorded one in row-major order reaches the recorded length. |
| LongestRun.FirstLongestSameLength | Eluvio_Challenge.py:58-70 | Any two answers meeting the tie-break rule have the same length. |
| LongestRun.FirstLongestUnique | Eluvio_Challenge.py:58-70 | The tie-break rule fixes length and both offsets uniquely. |
| LongestRun.FirstLongestSelf | Eluvio_Challenge.py:58-70 | Comparing a non-empty file with itself gives its whole length at offsets (0, 0). |
| DictKeyed.LeastOfTwoAsWritten | Eluvio_Challenge.py:49-76 | The loops over the shared dict `C` with the sign-flipping key `k * j` return what the row-by-row function `LeastOfTwoDict` gives. |
| DictKeyed.SharedKeyCounterexample | Eluvio_Challenge.py:58-70 | For A = [7, 5] and B = [5, 5], the as-written code reports length 2 at offsets (0, 0). The longest common run is 1, and no run of 2 starts there. |
| DictKeyed.SharedKeyDict | Eluvio_Challenge.py:58-70 | On A = [7, 5] and B = [5, 5], row 0 matches nothing, and cell (1, 1) reads the value row 1 just stored under key 0, ending with length 2 at offsets (0, 0). |
| DictKeyed.StaleEntryCounterexample | Eluvio_Challenge.py:58-70 | For A = [1, 8, 9, 2] and B = [3, 1, 2], the as-written code reports length 2. The longest common run is 1. |
| ComparisonGraph.Node.constructor | Eluvio_Challenge.py:39-42 | A node holds the given name and bytes. |
| ComparisonGraph.Edge.constructor | Eluvio_Challenge.py:19-25 | A new edge joins the given nodes, with length, both offsets and byte all 0. |
| ComparisonGraph.Edge.SetLen | Eluvio_Challenge.py:27-28 | Only the length changes, to the given value. |
| ComparisonGraph.Edge.SetOffsets | Eluvio_Challenge.py:30-34 | Each offset independently becomes the larger of its old and its new value. Length and byte are unchanged. |
| ComparisonGraph.Edge.SetByte | Eluvio_Challenge.py:36-37 | Only the byte changes, to the given value. |
| ComparisonGraph.Graph.constructor | Eluvio_Challenge.py:8-16 | Vertex v is file v with its name. Edge e joins the vertices of the e-th pair i < j in lexicographic order. Vertices and edges are fresh and distinct, and every edge starts blank. |
| ComparisonGraph.NewVertices | Eluvio_Challenge.py:9-11 | One fresh node per file, in input order, all distinct. |
| ComparisonGraph.NewEdges | Eluvio_Challenge.py:13-16 | One fresh blank edge per pair of `Pairs(n)`, in that order, all distinct. |
| ComparisonGraph.NewRowEdges | Eluvio_Challenge.py:15-16 | The inner loop creates edges (i, i+1), ..., (i, n-1), fresh, blank and distinct. |
| ComparisonGraph.PairsUpTo | Eluvio_Challenge.py:14-16 | Every pair listed for rows below i has left < i and left < right < n. |
| ComparisonGraph.PairsCount | Eluvio_Challenge.py:14-16 | There are n(n-1)/2 pairs. |
| ComparisonGraph.PairsOrdered | Eluvio_Challenge.py:14-16 | Pairs are in strictly increasing lexicographic order, so no pair repeats. |
| ComparisonGraph.PairsCover | Eluvio_Challenge.py:14-16 | Every pair i < j < n occurs in the list. |
| ComparisonGraph.CompleteShape | Eluvio_Challenge.py:7-16 | A constructed graph has n vertices and n(n-1)/2 edges, no self-pair, and no two edges joining the same two vertices in either order. |
| GlobalMax.SelectUpTo | Eluvio_Challenge.py:84-95 | Every index the selection keeps is below n and has the kept maximum as its length. |
| GlobalMax.PrefixMax | Eluvio_Challenge.py:91-93 | The prefix maximum bounds every length before n, and one of them reaches it. |
| GlobalMax.IndicesOf | Eluvio_Challenge.py:94-95 | The list holds exactly the indices below n whose length is m, increasing. |
| GlobalMax.SelectNeverFails | Eluvio_Challenge.py:91-95 | With a positive first length, the scan never fails, keeps the prefix maximum and keeps a non-empty list. |
| GlobalMax.SelectFailsOnZeroFirst | Eluvio_Challenge.py:94 | With a first length of 0, `max_list[0]` is read on an empty list and the scan ends in `IndexError`. |
| GlobalMax.SelectFailsIff | Eluvio_Challenge.py:91-95 | The scan over n edges fails if and only if n > 0 and the first length is 0. |
| GlobalMax.SelectAllMaximal | Eluvio_Challenge.py:84-95 | With a positive first length and one common signature, the scan returns the maximum and every index that reaches it, in order. |
| GlobalMax.SelectOutcome | Eluvio_Challenge.py:84-96 | With one common signature, the whole scan fails exactly on a first length of 0. Otherwise it returns the maximum and all indices that reach it. |
| GlobalMax.SelectFailsFirst | Eluvio_Challenge.py:94 | The scan can only start failing at the first edge. |
| GlobalMax.PairLengthAt | Eluvio_Challenge.py:86-87 | Each entry of the per-edge lengths is the longest common run of two distinct files i < j. |
| GlobalMax.PairLengthOf | Eluvio_Challenge.py:86-87 | Every pair of distinct files i < j has an entry of the per-edge lengths holding their longest common run. |
| GlobalMax.GlobalLongestIsLongest | Eluvio_Challenge.py:82-96 | The global length bounds the longest common run of every pair of files. With two or more files, some pair reaches it. |
| GlobalMax.FilledIsLongest | Eluvio_Challenge.py:86-90 | A filled edge's length is the longest common run of its two files, and its offsets start such a run. |
| GlobalMax.FillEdge | Eluvio_Challenge.py:87-90 | Running the engine on a blank edge and storing length, offsets and byte through the setters leaves the engine's answer in the edge. |
| GlobalMax.EdgeLengths | Eluvio_Challenge.py:83-87 | Edge e compares the two files whose longest common run is entry e of `PairLengths`. |
| GlobalMax.FirstEdgeLength | Eluvio_Challenge.py:86-94 | Once filled, the first edge holds the longest common run of files 0 and 1. |
| GlobalMax.FilledLengths | Eluvio_Challenge.py:86-90 | Once every edge is filled, their lengths are exactly `PairLengths`. |
| GlobalMax.Admit | Eluvio_Challenge.py:91-95 | One selection step on the edge list agrees with one step of `SelectUpTo`: the same failure, maximum and kept edges. It fails only on a first edge of length 0. |
| GlobalMax.FillNext | Eluvio_Challenge.py:86-90 | Filling the next edge extends the filled prefix by one edge and leaves the others untouched. |
| GlobalMax.FillAndSelect | Eluvio_Challenge.py:84-96 | The loop fills edges in order. With a first length of 0 it stops at the first edge with `IndexError`. Otherwise it fills every edge and returns exactly the edges whose length is the maximum, in creation order. |
| GlobalMax.GraphPairs | Eluvio_Challenge.py:82-96 | It builds the complete graph. It fails exactly when there are at least two files and files 0 and 1 share no byte. Otherwise every edge is filled, and the result is the edges of `Winners`, each of the global longest length. With fewer than two files it returns the empty list. |

## Left out

- Reading files from `samples/` and handling `sys.argv` (`Eluvio_Challenge.py:100-110`, `:126`). This is I/O. The files arrive as a `seq<seq<Byte>>` plus a sequence of names.
- Printing and the `(name, offset)` deduplication in `main` (`Eluvio_Challenge.py:113-124`). This is presentation. Also left out is `main` reading `max_list[0]` after an empty result, which happens with fewer than two files.
- Each Python `bytes` element of length 1 is modelled as its byte value (`Common.Byte`, 0..255).
- The engine's row buffers have |B| cells each, since rows run over B. The comment at `Eluvio_Challenge.py:48` promises memory "O(min(a,b))", which neither the dict (up to about 2|B| keys) nor these buffers achieve. Only memory differs.
- The `curr_max` slice `A[i - max_len + 1:i]` (`Eluvio_Challenge.py:68`) drops the run's last byte. It only feeds the signature loop, which never runs. `LeastOfTwo` computes the slice as written, and the off-by-one affects no result.
- DictKeyed.LeastOfTwoAsWritten: does not track `curr_max`, because the signature it feeds is always 0.
- GraphPairs: uses the corrected engine `LeastOfTwo`, not the as-written dict version. Its result is stated for that engine.

## Findings

| source | as written | input that shows it | evidently intended | confidence | as-written member | corrected member |
|---|---|---|---|---|---|---|
| Eluvio_Challenge.py:58-70 | The two DP rows share one dict keyed by `k * j`. Key 0 belongs to every row, and entries are never removed on a mismatch, so `C[-k*(j-1)]` can return a value of the current row or of a row several steps back. | A = [7, 5], B = [5, 5] gives length 2 at offsets (0, 0). A = [1, 8, 9, 2], B = [3, 1, 2] also gives 2. | Length 1, the longest common run, as the recurrence in the comments at :44-48 gives | proved on the model, not executed | DictKeyed.SharedKeyCounterexample | PairwiseLcs.LeastOfTwo |
