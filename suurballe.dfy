/**
  `find_2disjoint_path` of SuurballeGraph.py and the `SuurballeGraph` object that holds the
  graph and the two endpoints every search uses.
*/
module Suurballe {
  import opened Wrappers
  import opened Digraph
  import opened Paths
  import opened Reweighter
  import opened ResidualGraph
  import opened Reconciler

  /** Every intermediate value of one run, or the early exit of steps 1 and 2. */
  datatype Run =
    | Aborted
    | Completed(raw1: seq<Node>, reweighted: Graph, residual: Graph, raw2: seq<Node>,
                common: set<Pair>, stripped: Graph,
                p1: seq<Node>, w1: map<Node, int>, pruned: Graph,
                p2: seq<Node>, w2: map<Node, int>)

  /** The run of `find_2disjoint_path` on graph `g`, with every search from `s` to `t`. */
  ghost function Pipeline(dijkstra: Oracle, g: Graph, s: Node, t: Node): Run {
    var (raw1, _) := SearchPath(dijkstra, g, s, t);
    if raw1 == [] then Aborted
    else match Reweighting(dijkstra, g, s)
      case None => Aborted
      case Some(g2) => Finish(dijkstra, g, s, t, raw1, g2)
  }

  /** Steps 3 to 5, once the first raw path `raw1` and the reduced weights `g2` are known. */
  ghost function Finish(dijkstra: Oracle, g: Graph, s: Node, t: Node, raw1: seq<Node>, g2: Graph): Run {
    var g3 := Residual(g2, raw1);
    var (raw2, _) := SearchPath(dijkstra, g3, s, t);
    var common := CommonEdges(ReversedZero(raw1), ForwardZero(raw2));
    var g5 := Removed(g, common);
    var (p1, w1) := SearchPath(dijkstra, g5, s, t);
    var g6 := Removed(g5, Pairs(p1));
    var (p2, w2) := SearchPath(dijkstra, g6, s, t);
    Completed(raw1, g2, g3, raw2, common, g5, p1, w1, g6, p2, w2)
  }

  /** What `find_2disjoint_path` returns for a run. */
  function Answer(run: Run): (seq<Node>, seq<Node>) {
    match run
    case Aborted => ([], [])
    case Completed(_, _, _, _, _, _, p1, _, _, p2, _) => (p1, p2)
  }

  /**
    `find_2disjoint_path`: steps 1 to 5 on copies of `g`.  The source never uses its own
    `start`/`end` arguments; every search goes from `s` to `t`, the graph's endpoints.
  */
  method FindTwoDisjointPathsIn(dijkstra: Oracle, g: Graph, s: Node, t: Node) returns (p1: seq<Node>, p2: seq<Node>)
    requires SoundOracle(dijkstra)
    ensures (p1, p2) == Answer(Pipeline(dijkstra, g, s, t))
  {
    // Step 1: the first raw path.
    var raw1, _ := ShortestPath(dijkstra, g, s, t);
    if |raw1| == 0 {
      return [], [];
    }
    // Step 2: reduced weights.
    var reweighted := Reweight(dijkstra, g, s);
    if reweighted.None? {
      return [], [];
    }
    var common := CommonPairs(dijkstra, reweighted.value, raw1, s, t);
    p1, p2 := SearchTwice(dijkstra, g, common, s, t);
  }

  /**
    Steps 3 and 4: the residual graph of `raw1` over the reduced weights `g2`, the second raw
    path through it, and the pairs shared by the reversed first path and the second path.
  */
  method CommonPairs(dijkstra: Oracle, g2: Graph, raw1: seq<Node>, s: Node, t: Node) returns (common: set<Pair>)
    ensures var raw2 := SearchPath(dijkstra, Residual(g2, raw1), s, t).0;
      common == CommonEdges(ReversedZero(raw1), ForwardZero(raw2))
  {
    // Step 3: the residual graph.
    var g3, reversedP1 := BuildResidual(g2, raw1);
    // Step 4: the second raw path; an empty one is not checked.
    var raw2, _ := ShortestPath(dijkstra, g3, s, t);
    // Step 5 begins: the pairs both raw paths use, in either direction.
    var reversedP2 := ListForwardZero(raw2);
    common := CommonEdges(reversedP1, reversedP2);
  }

  /**
    Step 5: search `g` without the common edges, then search again without the first
    path's edges too, and build `graph_final` from both answers.
  */
  method SearchTwice(dijkstra: Oracle, g: Graph, common: set<Pair>, s: Node, t: Node) returns (p1: seq<Node>, p2: seq<Node>)
    requires SoundOracle(dijkstra)
    ensures var g5 := Removed(g, common);
      && p1 == SearchPath(dijkstra, g5, s, t).0
      && p2 == SearchPath(dijkstra, Removed(g5, Pairs(p1)), s, t).0
  {
    var g5 := RemoveEdges(g, common);
    var w1, w2;
    p1, w1 := ShortestPath(dijkstra, g5, s, t);
    var toRemove := ListPairs(p1);
    var g6 := RemoveEdges(g5, toRemove);
    p2, w2 := ShortestPath(dijkstra, g6, s, t);
    SearchPathSound(dijkstra, g5, s, t);
    SearchPathSound(dijkstra, g6, s, t);
    var graphFinal := FinalGraph(p1, w1, p2, w2);
  }

  /**
    A sound search in `h` minus some pairs returns a path that is empty or runs from `s` to
    `t` without repeating a node, along edges of `h` that avoid the removed pairs, and whose
    triples carry the weights of `h`.
  */
  lemma SearchAvoiding(dijkstra: Oracle, h: Graph, removed: set<Pair>, s: Node, t: Node)
    requires SoundSearch(Removed(h, removed), dijkstra(Removed(h, removed), s, t), t)
    ensures var (p, w) := SearchPath(dijkstra, Removed(h, removed), s, t);
      && (p == [] || (p[0] == s && p[|p| - 1] == t && Distinct(p)))
      && IsPath(h, p) && Pairs(p) !! removed && Weighted(p, w)
      && forall e | e in Steps(p, w) :: Entry(h, e.u, e.v) == Some(e.w)
  {
    var r := Removed(h, removed);
    var (p, w) := SearchPath(dijkstra, r, s, t);
    SearchPathShape(dijkstra, r, s, t);
    SearchPathSound(dijkstra, r, s, t);
    PathAvoidsRemoved(h, removed, p);
    if |p| >= 2 {
      forall i | 0 <= i < |p| - 1
        ensures Entry(h, p[i], p[i + 1]) == Some(w[p[i + 1]] - w[p[i]])
      {
        StepEntry(h, removed, p, w, i);
      }
    }
    StepsFromIndices(h, p, w);
  }

  /** Triples whose every step matches an entry of `h` carry the weights of `h`. */
  lemma StepsFromIndices(h: Graph, p: seq<Node>, w: map<Node, int>)
    requires Weighted(p, w)
    requires |p| >= 2 ==> forall i | 0 <= i < |p| - 1 :: Entry(h, p[i], p[i + 1]) == Some(w[p[i + 1]] - w[p[i]])
    ensures forall e | e in Steps(p, w) :: Entry(h, e.u, e.v) == Some(e.w)
  {

  }

  /** One step of a path found in `h` minus some pairs weighs what `h` gives its edge. */
  lemma StepEntry(h: Graph, removed: set<Pair>, p: seq<Node>, w: map<Node, int>, i: int)
    requires 0 <= i < |p| - 1 && IsPath(Removed(h, removed), p) && p[i] in w && p[i + 1] in w
    requires Removed(h, removed)[p[i]][p[i + 1]] == w[p[i + 1]] - w[p[i]]
    ensures Entry(h, p[i], p[i + 1]) == Some(w[p[i + 1]] - w[p[i]])
  {

  }

  /**
    Step 5 of any run: with the common pairs removed from `g`, both searches return paths
    along edges of `g` that avoid the common pairs, the second avoids the first's edges,
    and every triple of `graph_final` carries the weight `g` gives its edge.
  */
  lemma StepFive(dijkstra: Oracle, g: Graph, common: set<Pair>, s: Node, t: Node)
    requires SoundOracle(dijkstra)
    ensures var g5 := Removed(g, common);
      var (p1, w1) := SearchPath(dijkstra, g5, s, t);
      var (p2, w2) := SearchPath(dijkstra, Removed(g5, Pairs(p1)), s, t);
      && (p1 == [] || (p1[0] == s && p1[|p1| - 1] == t && Distinct(p1)))
      && (p2 == [] || (p2[0] == s && p2[|p2| - 1] == t && Distinct(p2)))
      && IsPath(g, p1) && IsPath(g, p2)
      && Pairs(p1) !! common && Pairs(p2) !! common && Pairs(p1) !! Pairs(p2)
      && Weighted(p1, w1) && Weighted(p2, w2)
      && forall e | e in Steps(p1, w1) + Steps(p2, w2) :: Entry(g, e.u, e.v) == Some(e.w)
  {
    var g5 := Removed(g, common);
    var (p1, w1) := SearchPath(dijkstra, g5, s, t);
    var g6 := Removed(g5, Pairs(p1));
    var (p2, w2) := SearchPath(dijkstra, g6, s, t);
    assert SoundSearch(g5, dijkstra(g5, s, t), t);
    assert SoundSearch(g6, dijkstra(g6, s, t), t);
    SearchAvoiding(dijkstra, g, common, s, t);
    SearchAvoiding(dijkstra, g5, Pairs(p1), s, t);
    PathAvoidsRemoved(g, common, p2);
    forall e | e in Steps(p2, w2)
      ensures Entry(g, e.u, e.v) == Some(e.w)
    {
      assert Entry(g5, e.u, e.v) == Some(e.w);
    }
  }

  /** Weights that agree with one graph agree with each other. */
  lemma AgreeingWeights(g: Graph, es: set<Edge>)
    requires forall e | e in es :: Entry(g, e.u, e.v) == Some(e.w)
    ensures Consistent(es)
  {

  }

  /**
    Each returned path is empty or runs from `s` to `t` without repeating a node, along
    edges of the original graph.
  */
  lemma FinalPathsShape(dijkstra: Oracle, g: Graph, s: Node, t: Node)
    requires SoundOracle(dijkstra)
    ensures var (p1, p2) := Answer(Pipeline(dijkstra, g, s, t));
      && (p1 == [] || (p1[0] == s && p1[|p1| - 1] == t && Distinct(p1) && IsPath(g, p1)))
      && (p2 == [] || (p2[0] == s && p2[|p2| - 1] == t && Distinct(p2) && IsPath(g, p2)))
  {
    var run := Pipeline(dijkstra, g, s, t);
    if run.Completed? {
      StepFive(dijkstra, g, run.common, s, t);
    }
  }

  /**
    The final first path uses no common edge in either direction; the final second path
    uses no common edge in either direction and no edge of the final first path.
  */
  lemma FinalPathsAvoidCommon(dijkstra: Oracle, g: Graph, s: Node, t: Node)
    requires SoundOracle(dijkstra)
    ensures var run := Pipeline(dijkstra, g, s, t);
      run.Completed? ==>
        && (forall u, v | (u, v) in Pairs(run.p1) :: (u, v) !in run.common && (v, u) !in run.common)
        && (forall u, v | (u, v) in Pairs(run.p2) :: (u, v) !in run.common && (v, u) !in run.common)
        && Pairs(run.p1) !! Pairs(run.p2)
  {
    var run := Pipeline(dijkstra, g, s, t);
    if run.Completed? {
      StepFive(dijkstra, g, run.common, s, t);
    }
  }

  /**
    The triples of the final graph agree with each other, and each one carries the weight
    the original graph gives its edge.
  */
  lemma FinalGraphWeights(dijkstra: Oracle, g: Graph, s: Node, t: Node)
    requires SoundOracle(dijkstra)
    ensures var run := Pipeline(dijkstra, g, s, t);
      run.Completed? ==>
        && Weighted(run.p1, run.w1) && Weighted(run.p2, run.w2)
        && Consistent(Steps(run.p1, run.w1) + Steps(run.p2, run.w2))
        && forall e | e in Steps(run.p1, run.w1) + Steps(run.p2, run.w2) :: Entry(g, e.u, e.v) == Some(e.w)
  {
    var run := Pipeline(dijkstra, g, s, t);
    if run.Completed? {
      StepFive(dijkstra, g, run.common, s, t);
      AgreeingWeights(g, Steps(run.p1, run.w1) + Steps(run.p2, run.w2));
    }
  }

  /**
    The first raw path repeats no node, so the residual graph holds each of its edges only
    reversed, with weight 0.
  */
  lemma RawResidual(dijkstra: Oracle, g: Graph, s: Node, t: Node)
    ensures var run := Pipeline(dijkstra, g, s, t);
      run.Completed? ==>
        && run.raw1[0] == s && run.raw1[|run.raw1| - 1] == t
        && forall i | 0 <= i < |run.raw1| - 1 ::
          && !HasEdge(run.residual, run.raw1[i], run.raw1[i + 1])
          && Entry(run.residual, run.raw1[i + 1], run.raw1[i]) == Some(0)
  {
    var run := Pipeline(dijkstra, g, s, t);
    if run.Completed? {
      SearchPathShape(dijkstra, g, s, t);
      ResidualDropsForward(run.reweighted, run.raw1);
      ResidualEntries(run.reweighted, run.raw1);
      forall i | 0 <= i < |run.raw1| - 1
        ensures Entry(run.residual, run.raw1[i + 1], run.raw1[i]) == Some(0)
      {
        assert (run.raw1[i + 1], run.raw1[i]) in RevPairs(run.raw1);
      }
    }
  }

  /** The object of SuurballeGraph.py: a graph and the endpoints of every search. */
  class SuurballeGraph {
    var graph: Graph
    var start: Node
    var end: Node

    constructor (graph: Graph, start: Node, end: Node)
      ensures this.graph == graph && this.start == start && this.end == end
    {
      this.graph := graph;
      this.start := start;
      this.end := end;
    }

    /** `add_edges` on the object's own graph. */
    method AddEdges(edges: set<Edge>)
      modifies this
      ensures AddsAll(old(graph), edges, graph)
      ensures Consistent(edges) ==> graph == Added(old(graph), edges)
      ensures start == old(start) && end == old(end)
    {
      graph := Digraph.AddEdges(graph, edges);
    }

    /** `remove_edges` on the object's own graph. */
    method RemoveEdges(pairs: set<Pair>)
      modifies this
      ensures graph == Removed(old(graph), pairs)
      ensures start == old(start) && end == old(end)
    {
      graph := Digraph.RemoveEdges(graph, pairs);
    }

    /** `set_start_end`. */
    method SetStartEnd(start: Node, end: Node)
      modifies this
      ensures this.start == start && this.end == end && graph == old(graph)
    {
      this.start := start;
      this.end := end;
    }

    /** `find_2disjoint_path`: the `start` and `end` arguments are ignored, as in the source. */
    method FindTwoDisjointPaths(dijkstra: Oracle, start: Node, end: Node) returns (p1: seq<Node>, p2: seq<Node>)
      requires SoundOracle(dijkstra)
      ensures (p1, p2) == Answer(Pipeline(dijkstra, graph, this.start, this.end))
    {
      p1, p2 := FindTwoDisjointPathsIn(dijkstra, graph, this.start, this.end);
    }
  }
}
