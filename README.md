# Suurballe's two disjoint paths, modelled in Dafny

`SuurballeGraph.py` keeps a weighted directed graph as a dictionary of dictionaries
(`graph[u][v]` is the weight of edge `u -> v`), a start node and an end node. It edits the graph
in batches (`add_edges`, `remove_edges`), lists its nodes and edges, and finds a shortest path
by running an external Dijkstra search and walking its predecessor table back from the end.
`find_2disjoint_path` then runs the five steps of Suurballe's algorithm:

1. find a first shortest path;
2. give every edge the reduced weight `w(u, v) - d(v) + d(u)`;
3. remove the first path's edges in both directions and add them back reversed, with weight 0;
4. find a second shortest path in that residual graph;
5. take the pairs both raw paths share (in either direction) out of a fresh copy of the
   original graph, search once, take the new path's edges out as well, search again, and
   build a final graph from the two answers.

The model:

- `wrappers.dfy`: `Option`.
- `digraph.dfy` (module `Digraph`): the graph as `map<Node, map<Node, int>>`.
  - `add_edges` and `remove_edges` are loops over a set. Each has a specification function,
    `Added` and `Removed`.
  - `nodes` and `edges` are plain functions.
- `paths.dfy` (module `Paths`): the Dijkstra search is a parameter `dijkstra` of type `Oracle`.
  - `shortest_path` is the predecessor walk, as a loop.
  - `SearchPath` is the function that specifies it.
  - `SoundOracle` says what the model takes for granted about a search to `t`: once `t` has a
    predecessor it also has a distance, and every node that has both a predecessor and a
    distance is reached by an edge of the searched graph from a node that has a distance, the
    distance growing by exactly the edge's weight. A search that stops as soon as `t` is
    settled, leaving unsettled nodes with a predecessor but no distance, meets it
    (`Paths.EarlyStopIsSound`). `Paths.ChainHasDistances` shows that every node of the chain
    walked back from `t` then has a distance.
- `reweighter.dfy` (module `Reweighter`): step 2.
- `residual.dfy` (module `ResidualGraph`): step 3.
- `reconciler.dfy` (module `Reconciler`): the common pairs, the path-edge lists and
  `graph_final` of step 5.
- `suurballe.dfy` (module `Suurballe`): the whole algorithm.
  - `Pipeline` is one run with all its intermediate values.
  - The method `FindTwoDisjointPathsIn` is proved equal to that run.
  - The lemmas state what the answer satisfies.
  - The class `SuurballeGraph` holds `graph`, `start` and `end`. Its methods update these
    fields in place.

Working copies made with `deepcopy` become plain map values. The optional `graph` argument of
`add_edges`, `remove_edges`, `nodes` and `edges` becomes the map passed in. The class methods
act on the `graph` field.

## Model

| member | source | states |
|---|---|---|
| Digraph.Added | SuurballeGraph.py:54-76 | a batch that never gives one pair two weights has an outcome: both ends of every triple become nodes, every listed pair carries its triple's weight, every other entry is unchanged |
| Digraph.AddedAdjOutcome | SuurballeGraph.py:65-76 | giving each node its old successors, with the batch's heads written over them, is an outcome of the batch |
| Digraph.AddsAllUnique | SuurballeGraph.py:65-76 | for such a batch, every iteration order of the set gives the same graph |
| Digraph.AddsAllClosed | SuurballeGraph.py:65-74 | adding edges keeps every edge head a node, because both ends are created |
| Digraph.AddOneStep | SuurballeGraph.py:65-76 | one loop iteration extends the processed part of the batch by that triple |
| Digraph.AddEdge | SuurballeGraph.py:67-76 | the loop body: creates a missing tail or head, sets `graph[u][v] = w`, leaves every other entry alone |
| Digraph.AddsAllFacts | SuurballeGraph.py:54-76 | a graph that adds a batch equals `Added` when the batch is consistent, and keeps heads as nodes |
| Digraph.AddEdges | SuurballeGraph.py:54-76 | `add_edges` gives some outcome of the batch in some iteration order, and that outcome is `Added` for a consistent batch |
| Digraph.Removed | SuurballeGraph.py:82-96 | keeps every node; a listed pair is no longer an edge; every other entry is unchanged; a pair naming a missing node or edge is skipped |
| Digraph.RemoveEdges | SuurballeGraph.py:82-96 | `remove_edges` ends with exactly `Removed(g, pairs)`, whatever the order |
| Digraph.RemovedIdempotent | SuurballeGraph.py:82-96 | removing the same batch twice is the same as removing it once |
| Digraph.Edges | SuurballeGraph.py:109-123 | a triple is listed exactly when the graph has that edge with that weight, and there is one triple per ordered pair |
| Digraph.Nodes | SuurballeGraph.py:98-107 | the nodes are the graph's keys, and cover both ends of every edge when heads are keys |
| Paths.WalkShape | SuurballeGraph.py:157-163 | a walk that succeeds starts at `s`, ends at the requested node, follows predecessor links and repeats no node |
| Paths.WalkFinds | SuurballeGraph.py:157-163 | walking back from any node of a repeat-free predecessor chain retraces the chain up to that node |
| Paths.ReconstructFinds | SuurballeGraph.py:156-168 | every repeat-free predecessor chain from `s` to `t` is found, so the fuel bound never cuts off a walk the source would finish |
| Paths.ChainFitsFuel | SuurballeGraph.py:157-163 | a repeat-free chain has at most one link per predecessor entry |
| Paths.SearchPathShape | SuurballeGraph.py:125-168 | `shortest_path` gives `[s]` when `s == t`; otherwise it gives `[]`, or a repeat-free path from `s` to `t` along predecessor links together with the search's distance table |
| Paths.ChainHasDistances | SuurballeGraph.py:305-308 | against a sound search to `t`, every node of a predecessor chain ending at `t` has a distance, so the lookups of the final step cannot fail |
| Paths.SearchPathSound | SuurballeGraph.py:150-168 | against a sound search, the path runs along edges of the searched graph, each step weighs the distance difference of its ends, and the whole path weighs `d(t) - d(s)` |
| Paths.ChainWeight | SuurballeGraph.py:150-168 | a path whose steps weigh distance differences weighs the difference at its ends |
| Paths.ShortestPath | SuurballeGraph.py:125-168 | the loop returns exactly `SearchPath`: the walk reversed into forward order, or `([], {})` on a missing predecessor |
| Reweighter.Reweighting | SuurballeGraph.py:199-217 | step 2 fails exactly when some end of some edge has no distance; otherwise it keeps every node and every edge and only changes weights |
| Reweighter.ReweightedPathWeight | SuurballeGraph.py:212-214 | along any path, both ends have a distance and the reduced length equals the original length minus `d(last)` plus `d(first)` |
| Reweighter.DistanceOf | SuurballeGraph.py:207-214 | `shortest_path(end=x)` followed by the lookup `weights[x]` gives the potential of `x`, or nothing when the lookup would raise |
| Reweighter.MissingDistance | SuurballeGraph.py:213-217 | one edge out of `u` with an end that has no distance makes step 2 fail |
| Reweighter.AllReduced | SuurballeGraph.py:209-214 | successors that each carry `w(u, v) - d(v) + d(u)` are exactly the reduced successors of `u` |
| Reweighter.ReweightFrom | SuurballeGraph.py:206-217 | the inner loop gives the reduced successors of `u`, or fails exactly when an edge out of `u` lacks a distance |
| Reweighter.Reweight | SuurballeGraph.py:199-217 | the nested loops return exactly `Reweighting` |
| ResidualGraph.ReversedZero | SuurballeGraph.py:233-236 | the reversed first-path edges with weight 0 never give one pair two weights |
| ResidualGraph.ReversedZeroPairs | SuurballeGraph.py:233-236 | their pairs are exactly the reversed pairs of the path |
| ResidualGraph.ResidualEntries | SuurballeGraph.py:222-240 | in the residual graph each reversed path edge has weight 0, a forward path edge is gone unless it is also a reversed one, and every other entry is as in step 2 |
| ResidualGraph.ResidualHasPathNodes | SuurballeGraph.py:233-240 | every node of a first path with at least one edge is a residual node |
| ResidualGraph.ResidualNodes | SuurballeGraph.py:222-240 | residual nodes come only from the step-2 graph or the path, and heads stay nodes |
| ResidualGraph.SimplePathOneWay | SuurballeGraph.py:233-235 | a repeat-free path never uses a pair in both directions |
| ResidualGraph.ResidualDropsForward | SuurballeGraph.py:222-240 | for a repeat-free first path, no forward edge of it is left in the residual graph |
| ResidualGraph.ListResidualEdits | SuurballeGraph.py:229-236 | the loop lists the path's pairs in both directions, to delete, and its reversed edges with weight 0, to add back |
| ResidualGraph.BuildResidual | SuurballeGraph.py:222-240 | the step-3 loop and edits give exactly `Residual` and the reversed triples |
| Reconciler.CommonEdges | SuurballeGraph.py:263-267 | a pair is common exactly when it, or its reverse, belongs to a triple shared by both sets, so the result is symmetric |
| Reconciler.CommonEdgesOfPaths | SuurballeGraph.py:256-267 | for the raw paths, a pair is common exactly when it, or its reverse, is a step of the second path that runs back along a step of the first |
| Reconciler.ListForwardZero | SuurballeGraph.py:256-260 | the loop lists the second path's steps with weight 0 |
| Reconciler.ListPairs | SuurballeGraph.py:283-287 | the loop lists the final first path's steps |
| Reconciler.PathAvoidsRemoved | SuurballeGraph.py:269-296 | a path in a graph with pairs removed is a path of the full graph, uses no removed pair and keeps the same weights |
| Reconciler.ListSteps | SuurballeGraph.py:305-308 | one loop lists a path's steps, each weighing the distance difference of its ends |
| Reconciler.FinalGraph | SuurballeGraph.py:301-309 | `graph_final` adds the step triples of both final paths to an empty graph |
| Reconciler.FinalPathWeight | SuurballeGraph.py:301-309 | each final path is a path of `graph_final` and weighs `d(t) - d(s)` there |
| Suurballe.FindTwoDisjointPathsIn | SuurballeGraph.py:170-320 | `find_2disjoint_path` returns `([], [])` when step 1 or step 2 fails, and otherwise the two paths of step 5 of `Pipeline` |
| Suurballe.CommonPairs | SuurballeGraph.py:222-267 | steps 3 and 4 yield the common pairs of the reversed first raw path and the second raw path |
| Suurballe.SearchTwice | SuurballeGraph.py:269-309 | step 5 searches the original graph without the common pairs, then again without the first answer's steps |
| Suurballe.SearchAvoiding | SuurballeGraph.py:269-296 | a sound search in a graph with pairs removed gives a repeat-free path from `s` to `t` (or nothing) that avoids the removed pairs and whose triples carry the full graph's weights |
| Suurballe.StepEntry | SuurballeGraph.py:305-308 | one step of such a path carries the weight the full graph gives that edge |
| Suurballe.StepsFromIndices | SuurballeGraph.py:305-308 | the step triples carry a graph's weights when every step does |
| Suurballe.StepFive | SuurballeGraph.py:269-309 | both final paths are repeat-free `s`-to-`t` paths (or empty) of the original graph, avoid the common pairs, share no step, and their triples carry the original weights |
| Suurballe.FinalPathsShape | SuurballeGraph.py:170-320 | each returned path is empty, or a repeat-free path from `s` to `t` along edges of the original graph |
| Suurballe.FinalPathsAvoidCommon | SuurballeGraph.py:253-296 | once steps 1 and 2 succeed, neither final path uses a common pair in either direction, and the two final paths share no edge in the same direction |
| Suurballe.FinalGraphWeights | SuurballeGraph.py:301-309 | once steps 1 and 2 succeed, the triples `graph_final` is built from never give one pair two weights, and each one carries the original graph's weight for its edge |
| Suurballe.RawResidual | SuurballeGraph.py:188-240 | once steps 1 and 2 succeed, the first raw path runs from `s` to `t`, and the residual graph holds each of its steps only reversed, with weight 0 |
| Suurballe.SuurballeGraph.constructor | SuurballeGraph.py:41-52 | the object holds the given graph, start and end |
| Suurballe.SuurballeGraph.AddEdges | SuurballeGraph.py:54-76 | `add_edges` on the object's graph, as `Digraph.AddEdges`; start and end unchanged |
| Suurballe.SuurballeGraph.RemoveEdges | SuurballeGraph.py:82-96 | `remove_edges` on the object's graph, as `Digraph.RemoveEdges`; start and end unchanged |
| Suurballe.SuurballeGraph.SetStartEnd | SuurballeGraph.py:78-80 | `set_start_end` replaces both endpoints and leaves the graph alone |
| Suurballe.SuurballeGraph.FindTwoDisjointPaths | SuurballeGraph.py:170-320 | `find_2disjoint_path` on the object's graph and endpoints; its own `start`/`end` arguments are ignored, as in the source |

## Left out

- Dijkstra (`dijkstra.dijkstra`) is not part of this model. It is the function parameter
  `dijkstra`. A `KeyError` inside it is modelled as a search that returns empty tables. The
  source then behaves the same way: the lookup on the empty list fails, and `([], {})` is
  returned (or `[start]` when start equals end).
- Suurballe.FindTwoDisjointPathsIn: requires `SoundOracle`. The source indexes the distance
  table at every node of both final paths (lines 305-308) without catching a `KeyError`. Those
  are the nodes of the chain walked back from `t`, so all that is needed is that `t` has a
  distance once it has a predecessor and that each node with both a predecessor and a
  distance hangs off a node with a distance. A search whose table lacks an entry on that
  chain would raise `KeyError` in the source, and the model does not cover that case.
- Suurballe.FinalPathsAvoidCommon: the two final paths share no edge in the same direction,
  but the model does not rule out that the second uses an edge of the first in the opposite
  direction. Before the last search the source removes only the forward pairs of the final
  first path (lines 283-290). Ruling out the opposite direction would need the optimality
  facts that are left out below.
- Suurballe.FinalPathsShape: a search that finds nothing at step 4 or 5 (lines 248, 278, 296)
  does not abort the run. Steps 4 and 5 go on, so the answer can be `(p1, [])`, or `([], [])`
  after step 5. Only an empty first raw path aborts the run with two empty paths. `Pipeline`
  follows the source here rather than returning two empty paths on every failed search.
- Shortest-path optimality is not modelled, so neither are the facts that rest on it: reduced
  weights are non-negative and zero on first-path edges, and the two paths together have
  minimum total length.
- Paths.ShortestPath: the walk is bounded by the size of the predecessor table. When the
  predecessor chain cycles, the source loops for ever, but the model returns `([], {})`.
  `Paths.ReconstructFinds` shows that the bound never stops a walk the source would finish.
- Digraph.Edges, Digraph.Nodes: return sets. The source returns a list and a tuple in
  dictionary order, and that order is not modelled.
- Digraph.AddEdges: for a batch that gives one pair two weights, which weight wins depends on
  set iteration order. The contract states only that one of them wins (`AddsAll`).
- The graph views (`graph_view`, `GraphView.py`), the `visualization` argument, the `name`
  field, every `print` and `__str__` are left out: they only display results.
- `main.py` is not part of this model.
- `graph_final` is built and then only displayed, never returned. The model builds it, and
  its properties are proved, but it is not part of the result.
