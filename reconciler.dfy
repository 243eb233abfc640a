/**
  Step 5 of `find_2disjoint_path`: find the edges the two raw paths share (a second-path
  edge that runs back along the first path), delete them both ways from a fresh copy of the
  original graph, and search again twice, the second time without the new first path's edges.
  The final graph of the two paths carries, per edge, the difference of consecutive distances.
*/
module Reconciler {
  import opened Wrappers
  import opened Digraph
  import opened Paths
  import opened ResidualGraph

  /** `reversed_edges_p2`: every edge of the second path as found in the residual graph, with weight 0. */
  function ForwardZero(p: seq<Node>): set<Edge> {
    set i {:trigger p[i]} | 0 <= i < |p| - 1 :: Edge(p[i], p[i + 1], 0)
  }

  /**
    `common_edges`: the pairs of the triples found in both sets, together with their reverses.
    The result is closed under reversal.
  */
  function CommonEdges(r1: set<Edge>, r2: set<Edge>): (c: set<Pair>)
    ensures forall u, v :: (u, v) in c <==> (u, v) in PairsOf(r1 * r2) || (v, u) in PairsOf(r1 * r2)
    ensures forall u, v | (u, v) in c :: (v, u) in c
  {
    var shared := set e | e in r1 * r2 :: (e.u, e.v);
    (set x | x in shared :: (x.1, x.0)) + (set x | x in shared :: (x.0, x.1))
  }

  /**
    For the raw paths, a pair is common exactly when it, or its reverse, is an edge of the
    second path that runs back along an edge of the first path.
  */
  lemma CommonEdgesOfPaths(p1: seq<Node>, p2: seq<Node>)
    ensures forall u, v ::
      (u, v) in CommonEdges(ReversedZero(p1), ForwardZero(p2)) <==>
        ((u, v) in Pairs(p2) && (u, v) in RevPairs(p1)) || ((v, u) in Pairs(p2) && (v, u) in RevPairs(p1))
  {
    var r1, r2 := ReversedZero(p1), ForwardZero(p2);
    forall x | x in PairsOf(r1 * r2)
      ensures x in Pairs(p2) && x in RevPairs(p1)
    {
      var e: Edge :| e in r1 * r2 && x == (e.u, e.v);
      var i :| 0 <= i < |p1| - 1 && e == Edge(p1[i + 1], p1[i], 0);
      var j :| 0 <= j < |p2| - 1 && e == Edge(p2[j], p2[j + 1], 0);
    }
    forall x | x in Pairs(p2) && x in RevPairs(p1)
      ensures x in PairsOf(r1 * r2)
    {
      var i :| 0 <= i < |p1| - 1 && x == (p1[i + 1], p1[i]);
      var j :| 0 <= j < |p2| - 1 && x == (p2[j], p2[j + 1]);
      assert Edge(x.0, x.1, 0) in r1 * r2;
    }
  }

  /** The loop listing `reversed_edges_p2`. */
  method ListForwardZero(p: seq<Node>) returns (r: set<Edge>)
    ensures r == ForwardZero(p)
  {
    r := {};
    var i := 0;
    while i < |p| - 1
      invariant 0 <= i <= if |p| == 0 then 0 else |p| - 1
      invariant r == set j {:trigger p[j]} | 0 <= j < i :: Edge(p[j], p[j + 1], 0)
    {
      r := r + {Edge(p[i], p[i + 1], 0)};
      i := i + 1;
    }
  }

  /** The loop listing the final first path's edges for removal. */
  method ListPairs(p: seq<Node>) returns (r: set<Pair>)
    ensures r == Pairs(p)
  {
    r := {};
    var i := 0;
    while i < |p| - 1
      invariant 0 <= i <= if |p| == 0 then 0 else |p| - 1
      invariant r == set j {:trigger p[j]} | 0 <= j < i :: (p[j], p[j + 1])
    {
      r := r + {(p[i], p[i + 1])};
      i := i + 1;
    }
  }

  /** A path in a graph with some pairs removed avoids those pairs and is a path of the graph, with the same weights. */
  lemma PathAvoidsRemoved(h: Graph, removed: set<Pair>, p: seq<Node>)
    requires IsPath(Removed(h, removed), p)
    ensures IsPath(h, p) && Pairs(p) !! removed
    ensures forall i | 0 <= i < |p| - 1 :: h[p[i]][p[i + 1]] == Removed(h, removed)[p[i]][p[i + 1]]
  {

  }

  /** Every node of a path with at least one edge has an entry in `w`. */
  ghost predicate Weighted(p: seq<Node>, w: map<Node, int>) {
    |p| >= 2 ==> forall i | 0 <= i < |p| :: p[i] in w
  }

  /** The triples the final graph is built from: each path edge weighs the distance difference of its ends. */
  function Steps(p: seq<Node>, w: map<Node, int>): set<Edge>
    requires Weighted(p, w)
  {
    set i {:trigger p[i]} | 0 <= i < |p| - 1 :: Edge(p[i], p[i + 1], w[p[i + 1]] - w[p[i]])
  }

  /** One of the two loops that fill `edges_to_add`: the step triples of one path. */
  method ListSteps(p: seq<Node>, w: map<Node, int>) returns (r: set<Edge>)
    requires Weighted(p, w)
    ensures r == Steps(p, w)
  {
    r := {};
    var i := 0;
    while i < |p| - 1
      invariant 0 <= i <= if |p| == 0 then 0 else |p| - 1
      invariant r == set j {:trigger p[j]} | 0 <= j < i :: Edge(p[j], p[j + 1], w[p[j + 1]] - w[p[j]])
    {
      r := r + {Edge(p[i], p[i + 1], w[p[i + 1]] - w[p[i]])};
      i := i + 1;
    }
  }

  /** `graph_final`: both paths added to an empty graph. */
  method FinalGraph(p1: seq<Node>, w1: map<Node, int>, p2: seq<Node>, w2: map<Node, int>) returns (fg: Graph)
    requires Weighted(p1, w1) && Weighted(p2, w2)
    ensures AddsAll(map[], Steps(p1, w1) + Steps(p2, w2), fg)
    ensures Consistent(Steps(p1, w1) + Steps(p2, w2)) ==> fg == Added(map[], Steps(p1, w1) + Steps(p2, w2))
  {
    var fromP1 := ListSteps(p1, w1);
    var fromP2 := ListSteps(p2, w2);
    fg := AddEdges(map[], fromP1 + fromP2);
  }

  /**
    When the triples agree, the final graph holds each path, whose length is the distance
    difference of its ends.
  */
  lemma FinalPathWeight(p: seq<Node>, w: map<Node, int>, es: set<Edge>, fg: Graph)
    requires |p| >= 2 && Weighted(p, w)
    requires Steps(p, w) <= es && Consistent(es) && AddsAll(map[], es, fg)
    ensures IsPath(fg, p)
    ensures PathWeight(fg, p) == w[p[|p| - 1]] - w[p[0]]
  {
    forall i {:trigger p[i]} | 0 <= i < |p| - 1
      ensures HasEdge(fg, p[i], p[i + 1]) && fg[p[i]][p[i + 1]] == w[p[i + 1]] - w[p[i]]
    {
      var e := Edge(p[i], p[i + 1], w[p[i + 1]] - w[p[i]]);
      assert e in es;
      assert Edge(e.u, e.v, fg[e.u][e.v]) in es;
    }
    ChainWeight(fg, p, w);
  }
}
