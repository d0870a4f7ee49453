# tsort in Dafny

A model of the core of `tsort.py`, a Python re-implementation of the POSIX
`tsort` utility (IEEE Std 1003.1-2017). The program reads whitespace-separated
tokens, takes them two at a time, and prints the items in an order
consistent with the precedences the pairs declare:

- a pair `a a` declares that `a` exists, with no constraint;
- a pair `a b` with distinct items declares that `a` comes before `b`;
- a leftover single token is malformed input (exit status 2);
- a cycle in the precedences has no ordering (exit status 1);
- otherwise every item is printed once, in a valid order (exit status 0).

The model has four modules:

- `Seqs` (`seqs.dfy`): `NoDuplicates`, `IndexOf`, and counting lemmas
  (pigeonhole, duplicate-free sequences with equal elements are permutations).
- `Digraph` (`digraph.dfy`): the graph as a value `Graph(vertices, preds)`.
  The vertices are kept in registration order, with a predecessor set per
  vertex. It defines `add(node, *preds)` as the function `Graph.Add`, cycles,
  and linearizations. It proves that a graph with a linearization has no
  cycle, and that a stuck set of vertices (each with a predecessor inside the
  set) contains a cycle.
- `Sorting` (`sorter.dfy`): the sorter object that `run()` fills. The class
  `TopologicalSorter` has the fields `vertices` and `preds`. Its method `Add`
  updates them in place. Its method `StaticOrder` is a Kahn-style loop: it
  repeatedly outputs the first registered vertex whose predecessors are all
  output. It is proved to return a linearization and a permutation of the
  vertices, and to fail exactly when the graph has a cycle.
- `Pairing` (`pairing.dfy`) and `Tsort` (`tsort.dfy`): the pairing of tokens,
  the effect of each pair on the graph, and `run()` itself (`Tsort.Run`).
  `Run` returns an `Outcome` (`Ok(ordering)`, `Cyclic` or `Malformed`), and
  `ExitStatus` maps it to the process exit status.

The topological sort itself is library code in the original (Python's
`graphlib.TopologicalSorter`). It is not part of this model. `StaticOrder`
is an independent implementation, proved against the contract `run()` relies
on: a permutation of the vertices in which every predecessor comes first, or a
failure exactly when there is a cycle. It does not claim graphlib's
tie-breaking in general. For a graph without edges, both output the vertices
in registration order, and the model proves this for its own sort.

On a cycle the program reports only that a cycle exists, with the message
"cyclic dependency, no topological ordering"; it does not say which vertices
form the cycle (see the FIXME at tsort.py:56). The model follows the code:
`Cyclic` carries no vertices.

## Model

| member | source | states |
|---|---|---|
| `Pairing.Chunk` | tsort.py:46 | The tokens are read two at a time. For `n` tokens there are `n/2` complete pairs: `2k` or `2k+1` tokens give exactly `k` pairs, and a leftover token belongs to no pair. |
| `Pairing.ChunkAt` | tsort.py:46 | Whenever token `2k+1` exists, pair `k` exists and consists of tokens `2k` and `2k+1`. The pairs are consecutive and do not overlap, in input order. |
| `Digraph.Graph.Register` | tsort.py:48-50 | Registering a vertex makes it known and adds no other vertex. At most one vertex is appended. |
| `Digraph.Graph.AddPred` | tsort.py:50 | Recording a predecessor `p` makes `p` known and adds no other key. At most one vertex is appended. |
| `Digraph.Graph.AddPreds` | tsort.py:50 | Recording predecessors `xs` makes exactly the items of `xs` known in addition to the old vertices. At most as many vertices are appended as `xs` has items. |
| `Digraph.Graph.Add` | tsort.py:48-50 | `add(node, *xs)` makes exactly `node` and the items of `xs` known in addition to the old vertices. At most one more vertex than `xs` has items is appended. `AddEffect` states its edges and order. |
| `Digraph.RegisterEffect` | tsort.py:48-50 | Registering a vertex keeps the graph well formed and adds it to the known vertices. It adds no edge and keeps the earlier vertices in place. |
| `Digraph.AddPredEffect` | tsort.py:50 | Recording one predecessor registers it and adds exactly the edge `p -> node`. The earlier registration order is kept. |
| `Digraph.AddPredsEffect` | tsort.py:50 | Recording a list of predecessors adds exactly the edges `x -> node` for `x` in the list. Every listed item becomes a vertex, and the earlier registration order is kept. |
| `Digraph.AddEffect` | tsort.py:48-50 | `add(node, *xs)` keeps the graph well formed. Afterwards the edges are the old ones plus `x -> node` for each `x` in `xs`. The vertices are the old ones plus `node` and `xs`, appended after the old ones. |
| `Sorting.TopologicalSorter.constructor` | tsort.py:43 | A new sorter has no vertices and no predecessors. |
| `Sorting.TopologicalSorter.Add` | tsort.py:48-50 | The in-place `add` changes the sorter's fields exactly as `Graph.Add` describes and keeps the sorter well formed. |
| `Pairing.Step` | tsort.py:47-50 | One pair, `add(dest)` for `a a` and `add(dest, src)` otherwise, makes both of its items known and no other. It appends at most two vertices. `StepEffect` states its edges. |
| `Pairing.Build` | tsort.py:45-50 | The graph after the pairing loop has fed every pair to an empty sorter. It has at most two vertices per pair. `BuildMatchesPairs` states its vertices and edges exactly. |
| `Pairing.StepEffect` | tsort.py:47-50 | Feeding one pair keeps the graph well formed and registers the pair's items after the vertices already known. It records the edge `src -> dest` when the items differ, and no other edge. |
| `Pairing.PairRegistrationOrder` | tsort.py:49-50 | For a pair `a b` of distinct items not seen before, `add(b, a)` registers `b` first and then `a`, after the vertices already known. |
| `Pairing.SelfPairRegistersOnly` | tsort.py:47-48 | A pair `a a` registers `a` and records no edge. |
| `Pairing.DistinctPairAddsEdge` | tsort.py:49-50 | A pair `a b` with `a != b` registers both items and records `a` as a predecessor of `b`. It records no other edge. |
| `Pairing.BuildMatchesPairs` | tsort.py:45-50 | The graph built from the pairs is well formed. Its vertices are exactly the items of the pairs. Its edges are exactly the pairs of distinct items. |
| `Pairing.BuildFollowsFirstMention` | tsort.py:46-50 | The vertices are registered in order of first mention. A vertex listed after another is never mentioned before the other's first mention. |
| `Pairing.SelfPairsBuildNoEdges` | tsort.py:47-48 | Input made only of pairs `a a` builds a graph with no edge. |
| `Sorting.TopologicalSorter.FirstReady` | tsort.py:55 | Returns the first registered vertex that is not yet output and whose predecessors all are. It returns the count of vertices exactly when there is none. |
| `Sorting.TopologicalSorter.NextInRegistrationOrder` | tsort.py:55 | In a graph without edges, once the first `n` registered vertices are output, the next ready vertex is vertex `n`. |
| `Sorting.TopologicalSorter.StaticOrder` | tsort.py:55-57 | Succeeds exactly when the graph has no cycle. On success the result lists every vertex exactly once, a permutation of the registered vertices, with every predecessor before its successor. Without edges the result is the registration order. |
| `Digraph.EmitReady` | tsort.py:55 | Outputting a vertex whose predecessors are all output keeps every edge pointing forward in the partial output. |
| `Digraph.CompleteIsLinearization` | tsort.py:55 | Once every vertex is output, the output is a linearization and a permutation of the vertices, and the graph has no cycle. |
| `Digraph.NoneReadyMeansCycle` | tsort.py:56-57 | If vertices remain but none can be output, the graph has a cycle, so raising the cycle error there is justified. |
| `Digraph.PositionsIncreaseAlongCycle` | tsort.py:55-57 | In any linearization, positions strictly increase along the edges of a cycle. |
| `Digraph.LinearizationExcludesCycle` | tsort.py:55-57 | A graph that has a linearization has no cycle, so an ordering can only be produced for acyclic input. |
| `Digraph.BackwardWalk` | tsort.py:56-57 | In a non-empty set of vertices where each has a predecessor in the set, there are walks of every length along edges. |
| `Digraph.StuckSetHasCycle` | tsort.py:56-57 | If no remaining vertex can be output because each has a remaining predecessor, the graph has a cycle, so failing there is justified. |
| `Tsort.ExitStatus` | tsort.py:19-23 | Success exits with 0, a cycle with `CYCLIC` = 1, malformed input with `MALFORMED` = 2, and each status belongs to exactly one outcome. |
| `Tsort.BuiltGraphAgrees` | tsort.py:46-57 | For the graph built from the pairs, a linearization is exactly an ordering of the pairs' items that respects every pair. The graph has a cycle exactly when the pairs declare one. |
| `Tsort.SortOutcomeForPairs` | tsort.py:54-57 | The sorter's answer on the built graph, read back in terms of the pairs. A result is an ordering of the pairs' items that respects every pair. There is no result exactly when the pairs declare a cycle. Input of only pairs `a a` gives the registration order. |
| `Tsort.Run` | tsort.py:41-60 | An odd token count always gives `Malformed` (status 2) and never an ordering, even when the complete pairs form a cycle. With an even count, the outcome is `Cyclic` (status 1) exactly when the declared precedences contain a cycle. Otherwise it is `Ok` with an ordering that lists every item exactly once, and nothing else, with `a` before `b` for every pair `a b` of distinct items. Input made only of pairs `a a` is printed in registration order. |

## Left out

- Reading the input (`tokens()`, `fileinput` and `str.split`, tsort.py:33-37) is I/O. The model takes the token sequence as the input of `Run`.
- Printing is not modelled: the error line on standard error, `sys.exit`, and the ordering, one vertex per line (tsort.py:26-30, 52, 57, 59-60). `Run` returns the `Outcome` that decides what would be printed, and `ExitStatus` gives the status. The message texts are not modelled.
- The `@typechecked` run-time checks are covered by Dafny's static types.
- The internals of `more_itertools.chunked` and `graphlib` are not part of this model. Only the pairing semantics and the ordering contract are modelled.
- Sorting.TopologicalSorter.StaticOrder: chooses one deterministic order (the first registered ready vertex next). graphlib's own tie-breaking is not modelled, except that both give registration order when there are no edges.
- Duplicate edges: graphlib counts a repeated `add(b, a)` twice. The model keeps predecessor sets, so the repeat has no effect. The ordering contract is the same either way.
- Pairs before a leftover token are added to the sorter, and then the program exits. `Run` returns `Malformed` at that point and does not expose the partly built sorter, as the program discards it too.
- Reporting which cycle was found is left out; the code does not do it (FIXME at tsort.py:56).
