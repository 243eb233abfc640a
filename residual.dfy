/**
  Step 3 of `find_2disjoint_path`: the residual graph `tmp_graph_3`, a copy of the
  reweighted graph in which every edge along the first path is deleted in both directions
  and then re-added reversed with weight 0.
*/
module ResidualGraph {
  import opened Wrappers
  import opened Digraph
  import opened Paths

  /** `reversed_edges_p1`: every edge of the path reversed, with weight 0. */
  function ReversedZero(p: seq<Node>): (r: set<Edge>)
    ensures Consistent(r)
  {
    set i {:trigger p[i]} | 0 <= i < |p| - 1 :: Edge(p[i + 1], p[i], 0)
  }

  /** `tmp_graph_3` built from the reweighted graph `g2` and the first path `p1`. */
  ghost function Residual(g2: Graph, p1: seq<Node>): Graph {
    Added(Removed(g2, Pairs(p1) + RevPairs(p1)), ReversedZero(p1))
  }

  /** The pairs of `reversed_edges_p1` are the reversed path pairs. */
  lemma ReversedZeroPairs(p: seq<Node>)
    ensures PairsOf(ReversedZero(p)) == RevPairs(p)
  {
    forall x | x in RevPairs(p)
      ensures x in PairsOf(ReversedZero(p))
    {
      var i :| 0 <= i < |p| - 1 && x == (p[i + 1], p[i]);
      assert Edge(p[i + 1], p[i], 0) in ReversedZero(p);
    }
  }

  /**
    In the residual graph every reversed path edge is present with weight 0, a forward path
    edge is present only where it is also a reversed one, and every other entry is that of `g2`.
  */
  lemma ResidualEntries(g2: Graph, p1: seq<Node>)
    ensures var g3 := Residual(g2, p1);
      && (forall u, v | (u, v) in RevPairs(p1) :: Entry(g3, u, v) == Some(0))
      && (forall u, v | (u, v) in Pairs(p1) && (u, v) !in RevPairs(p1) :: Entry(g3, u, v) == None)
      && (forall u, v | (u, v) !in Pairs(p1) && (u, v) !in RevPairs(p1) :: Entry(g3, u, v) == Entry(g2, u, v))
  {
    var es := ReversedZero(p1);
    var g3 := Residual(g2, p1);
    ReversedZeroPairs(p1);
    forall u, v | (u, v) in RevPairs(p1)
      ensures Entry(g3, u, v) == Some(0)
    {
      var e :| e in es && (e.u, e.v) == (u, v);
    }
  }

  /** Every node of a first path with at least one edge is a node of the residual graph. */
  lemma ResidualHasPathNodes(g2: Graph, p1: seq<Node>)
    requires |p1| >= 2
    ensures forall i | 0 <= i < |p1| :: p1[i] in Residual(g2, p1)
  {
    var es := ReversedZero(p1);
    forall i | 0 <= i < |p1|
      ensures p1[i] in Residual(g2, p1)
    {
      if i < |p1| - 1 {
        assert Edge(p1[i + 1], p1[i], 0) in es;
      } else {
        assert Edge(p1[i], p1[i - 1], 0) in es;
      }
    }
  }

  /**
    The residual graph has no node beyond those of `g2` and of the path, and it keeps every
    adjacency head a key.
  */
  lemma ResidualNodes(g2: Graph, p1: seq<Node>)
    ensures forall x | x in Residual(g2, p1) :: x in g2 || x in p1
    ensures Closed(g2) ==> Closed(Residual(g2, p1))
  {

  }

  /** A path without repeated nodes never holds an edge together with its reverse. */
  lemma SimplePathOneWay(p: seq<Node>)
    requires Distinct(p)
    ensures Pairs(p) !! RevPairs(p)
  {

  }

  /** For a first path without repeated nodes, no forward path edge survives in the residual graph. */
  lemma ResidualDropsForward(g2: Graph, p1: seq<Node>)
    requires Distinct(p1)
    ensures forall i | 0 <= i < |p1| - 1 :: !HasEdge(Residual(g2, p1), p1[i], p1[i + 1])
  {
    ResidualEntries(g2, p1);
    SimplePathOneWay(p1);
    forall i | 0 <= i < |p1| - 1
      ensures !HasEdge(Residual(g2, p1), p1[i], p1[i + 1])
    {
      assert (p1[i], p1[i + 1]) in Pairs(p1);
    }
  }

  /**
    The loop of step 3: the path's pairs in both directions, to delete, and its reversed
    edges with weight 0, to add back.
  */
  method ListResidualEdits(p1: seq<Node>) returns (toRemove: set<Pair>, reversedP1: set<Edge>)
    ensures toRemove == Pairs(p1) + RevPairs(p1)
    ensures reversedP1 == ReversedZero(p1)
  {
    toRemove := {};
    reversedP1 := {};
    var i := 0;
    while i < |p1| - 1
      invariant 0 <= i <= if |p1| == 0 then 0 else |p1| - 1
      invariant toRemove == (set j {:trigger p1[j]} | 0 <= j < i :: (p1[j + 1], p1[j]))
                          + (set j {:trigger p1[j]} | 0 <= j < i :: (p1[j], p1[j + 1]))
      invariant reversedP1 == set j {:trigger p1[j]} | 0 <= j < i :: Edge(p1[j + 1], p1[j], 0)
    {
      toRemove := toRemove + {(p1[i + 1], p1[i])};
      toRemove := toRemove + {(p1[i], p1[i + 1])};
      reversedP1 := reversedP1 + {Edge(p1[i + 1], p1[i], 0)};
      i := i + 1;
    }
  }

  /** Step 3: list the path edges, delete them both ways, add them back reversed with weight 0. */
  method BuildResidual(g2: Graph, p1: seq<Node>) returns (g3: Graph, reversedP1: set<Edge>)
    ensures g3 == Residual(g2, p1)
    ensures reversedP1 == ReversedZero(p1)
  {
    var toRemove;
    toRemove, reversedP1 := ListResidualEdits(p1);
    g3 := RemoveEdges(g2, toRemove);
    g3 := AddEdges(g3, reversedP1);
  }
}
