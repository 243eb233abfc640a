/**
  Step 2 of `find_2disjoint_path`: every edge `(u, v)` of the graph gets the reduced weight
  `w(u, v) - d(v) + d(u)`, where `d(x)` is the distance that `shortest_path(end=x)` reports
  for `x`.  A missing distance aborts the whole algorithm.
*/
module Reweighter {
  import opened Wrappers
  import opened Digraph
  import opened Paths

  /** `d(x)`: the entry for `x` in the table that `shortest_path(graph, s, x)` returns. */
  function Potential(dijkstra: Oracle, g: Graph, s: Node, x: Node): Option<int> {
    var (_, w) := SearchPath(dijkstra, g, s, x);
    if x in w then Some(w[x]) else None
  }

  /** Both ends of every edge leaving `u` have a potential. */
  predicate ReweightableFrom(dijkstra: Oracle, g: Graph, s: Node, u: Node)
    requires u in g
  {
    forall v | v in g[u] :: Potential(dijkstra, g, s, u).Some? && Potential(dijkstra, g, s, v).Some?
  }

  /** Both ends of every edge have a potential. */
  predicate Reweightable(dijkstra: Oracle, g: Graph, s: Node) {
    forall u | u in g :: ReweightableFrom(dijkstra, g, s, u)
  }

  /** The reduced successors of `u`. */
  function ReducedAdj(dijkstra: Oracle, g: Graph, s: Node, u: Node): map<Node, int>
    requires u in g && ReweightableFrom(dijkstra, g, s, u)
  {
    map v | v in g[u] :: g[u][v] - Potential(dijkstra, g, s, v).value + Potential(dijkstra, g, s, u).value
  }

  /**
    `tmp_graph_2`: the reweighted copy of `g`, or `None` when some edge end has no distance.
    It has the nodes and the edges of `g`, only the weights differ.
  */
  function Reweighting(dijkstra: Oracle, g: Graph, s: Node): (r: Option<Graph>)
    ensures r.Some? <==> Reweightable(dijkstra, g, s)
    ensures r.Some? ==> r.value.Keys == g.Keys && forall u, v :: HasEdge(r.value, u, v) <==> HasEdge(g, u, v)
  {
    if Reweightable(dijkstra, g, s) then Some(map u | u in g :: ReducedAdj(dijkstra, g, s, u)) else None
  }

  /**
    Reweighting shifts the weight of every path by the potential difference of its ends:
    reduced length = length - d(last) + d(first).
  */
  lemma {:induction false} ReweightedPathWeight(dijkstra: Oracle, g: Graph, s: Node, p: seq<Node>)
    requires Reweighting(dijkstra, g, s).Some?
    requires IsPath(g, p) && |p| >= 2
    ensures var g2 := Reweighting(dijkstra, g, s).value;
      && IsPath(g2, p)
      && Potential(dijkstra, g, s, p[0]).Some? && Potential(dijkstra, g, s, p[|p| - 1]).Some?
      && PathWeight(g2, p) == PathWeight(g, p) - Potential(dijkstra, g, s, p[|p| - 1]).value + Potential(dijkstra, g, s, p[0]).value
  {
    var g2 := Reweighting(dijkstra, g, s).value;
    assert HasEdge(g, p[0], p[1]);
    assert HasEdge(g, p[|p| - 2], p[|p| - 1]);
    if |p| > 2 {
      assert IsPath(g, p[1..]) by {
        forall i {:trigger p[1..][i]} | 0 <= i < |p[1..]| - 1
          ensures HasEdge(g, p[1..][i], p[1..][i + 1])
        {
          assert p[1..][i] == p[i + 1];
        }
      }
      ReweightedPathWeight(dijkstra, g, s, p[1..]);
    }
  }

  /** `shortest_path(end=x)` followed by the lookup of `x` in its distance table. */
  method DistanceOf(dijkstra: Oracle, g: Graph, s: Node, x: Node) returns (d: Option<int>)
    ensures d == Potential(dijkstra, g, s, x)
  {
    var _, weights := ShortestPath(dijkstra, g, s, x);
    d := if x in weights then Some(weights[x]) else None;
  }

  /**
    One pass of the outer loop of step 2: the reduced successors of `u`, or `None` at the
    first edge whose ends lack a distance.
  */
  method ReweightFrom(dijkstra: Oracle, g: Graph, s: Node, u: Node) returns (r: Option<map<Node, int>>)
    requires u in g
    ensures r.Some? <==> ReweightableFrom(dijkstra, g, s, u)
    ensures r.Some? ==> r.value == ReducedAdj(dijkstra, g, s, u)
  {
    var du := DistanceOf(dijkstra, g, s, u);
    var adj := g[u];
    var heads := g[u].Keys;
    ghost var seen: set<Node> := {};
    while heads != {}
      invariant seen + heads == g[u].Keys && seen !! heads
      invariant adj.Keys == g[u].Keys
      invariant forall v | v in heads :: adj[v] == g[u][v]
      invariant forall v | v in seen :: du.Some? && Potential(dijkstra, g, s, v).Some?
      invariant forall v | v in seen ::
        adj[v] == g[u][v] - Potential(dijkstra, g, s, v).value + du.value
      decreases heads
    {
      var v :| v in heads;
      var dv := DistanceOf(dijkstra, g, s, v);
      if dv.None? || du.None? {
        // The KeyError at the update aborts the algorithm.
        MissingDistance(dijkstra, g, s, u, v);
        return None;
      }
      adj := adj[v := g[u][v] - dv.value + du.value];
      heads := heads - {v};
      seen := seen + {v};
    }
    AllReduced(dijkstra, g, s, u, adj);
    r := Some(adj);
  }

  /** An edge out of `u` with an end that lacks a distance makes `u` fail. */
  lemma MissingDistance(dijkstra: Oracle, g: Graph, s: Node, u: Node, v: Node)
    requires u in g && v in g[u]
    requires Potential(dijkstra, g, s, u).None? || Potential(dijkstra, g, s, v).None?
    ensures !ReweightableFrom(dijkstra, g, s, u)
  {

  }

  /** Successors that all carry their reduced weight are the reduced successors. */
  lemma AllReduced(dijkstra: Oracle, g: Graph, s: Node, u: Node, adj: map<Node, int>)
    requires u in g && adj.Keys == g[u].Keys
    requires forall v | v in g[u] :: Potential(dijkstra, g, s, u).Some? && Potential(dijkstra, g, s, v).Some?
    requires forall v | v in g[u] ::
      adj[v] == g[u][v] - Potential(dijkstra, g, s, v).value + Potential(dijkstra, g, s, u).value
    ensures ReweightableFrom(dijkstra, g, s, u) && adj == ReducedAdj(dijkstra, g, s, u)
  {

  }

  /** Step 2 of `find_2disjoint_path`: the reweighted copy `tmp_graph_2` of `g`. */
  method Reweight(dijkstra: Oracle, g: Graph, s: Node) returns (r: Option<Graph>)
    ensures r == Reweighting(dijkstra, g, s)
  {
    var g2 := g;
    var todo := g.Keys;
    ghost var done: set<Node> := {};
    while todo != {}
      invariant done + todo == g.Keys && done !! todo
      invariant g2.Keys == g.Keys
      invariant forall u | u in todo :: g2[u] == g[u]
      invariant forall u | u in done :: ReweightableFrom(dijkstra, g, s, u) && g2[u] == ReducedAdj(dijkstra, g, s, u)
      decreases todo
    {
      var u :| u in todo;
      var adj := ReweightFrom(dijkstra, g, s, u);
      if adj.None? {
        return None;
      }
      g2 := g2[u := adj.value];
      todo := todo - {u};
      done := done + {u};
    }
    assert done == g.Keys;
    assert g2 == map u | u in g :: ReducedAdj(dijkstra, g, s, u);
    r := Some(g2);
  }
}
