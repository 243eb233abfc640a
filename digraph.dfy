/**
  The weighted directed graph of SuurballeGraph.py: a dictionary from each node to the
  dictionary of its successors and edge weights, with the batch operations `add_edges`,
  `remove_edges`, `nodes` and `edges`.  The source mutates the dictionary it is given; here
  a graph is a map value, and each batch operation returns the updated map.
*/
module Digraph {
  import opened Wrappers

  type Node = string
  type Graph = map<Node, map<Node, int>>
  type Pair = (Node, Node)

  /** A weighted edge triple `(u, v, w)`. */
  datatype Edge = Edge(u: Node, v: Node, w: int)

  predicate HasEdge(g: Graph, u: Node, v: Node) {
    u in g && v in g[u]
  }

  /** The weight stored for `(u, v)`, if any. */
  function Entry(g: Graph, u: Node, v: Node): Option<int> {
    if HasEdge(g, u, v) then Some(g[u][v]) else None
  }

  /** Every adjacency head is itself a key of the outer map. */
  ghost predicate Closed(g: Graph) {
    forall u, v | u in g && v in g[u] :: v in g
  }

  /** Two graphs with the same keys and the same entries are equal. */
  lemma GraphExt(a: Graph, b: Graph)
    requires a.Keys == b.Keys
    requires forall u, v :: Entry(a, u, v) == Entry(b, u, v)
    ensures a == b
  {
    forall u | u in a
      ensures a[u] == b[u]
    {
      forall v
        ensures v in a[u] <==> v in b[u]
      {
        assert Entry(a, u, v) == Entry(b, u, v);
      }
      forall v | v in a[u]
        ensures a[u][v] == b[u][v]
      {
        assert Entry(a, u, v) == Entry(b, u, v);
      }
    }
  }

  function Ends(es: set<Edge>): set<Node> {
    (set e | e in es :: e.u) + (set e | e in es :: e.v)
  }

  function PairsOf(es: set<Edge>): set<Pair> {
    set e | e in es :: (e.u, e.v)
  }

  /** No two triples of the batch give different weights to the same ordered pair. */
  ghost predicate Consistent(es: set<Edge>) {
    forall e1, e2 | e1 in es && e2 in es && e1.u == e2.u && e1.v == e2.v :: e1.w == e2.w
  }

  /**
    `r` is a possible outcome of adding the batch `es` to `g`, in some iteration order of
    the set: both endpoints of every triple are keys, every listed pair holds the weight of
    one of its triples, and every other entry is as in `g`.
  */
  ghost predicate AddsAll(g: Graph, es: set<Edge>, r: Graph) {
    && r.Keys == g.Keys + Ends(es)
    && (forall e | e in es :: HasEdge(r, e.u, e.v) && Edge(e.u, e.v, r[e.u][e.v]) in es)
    && (forall u, v | (u, v) !in PairsOf(es) :: Entry(r, u, v) == Entry(g, u, v))
  }

  function Adj(g: Graph, u: Node): map<Node, int> {
    if u in g then g[u] else map[]
  }

  function Heads(es: set<Edge>, u: Node): set<Node> {
    set e | e in es && e.u == u :: e.v
  }

  ghost function WeightOf(es: set<Edge>, u: Node, v: Node): (w: int)
    requires v in Heads(es, u)
    ensures Edge(u, v, w) in es
  {
    var e :| e in es && e.u == u && e.v == v; e.w
  }

  /** The successors of `u` after the batch: the old ones, with the batch's heads written over them. */
  ghost function AddedAdj(g: Graph, es: set<Edge>, u: Node): map<Node, int> {
    Adj(g, u) + map v | v in Heads(es, u) :: WeightOf(es, u, v)
  }

  /** The one outcome of adding a consistent batch. */
  ghost function Added(g: Graph, es: set<Edge>): (r: Graph)
    requires Consistent(es)
    ensures AddsAll(g, es, r)
  {
    var r := map u | u in g.Keys + Ends(es) :: AddedAdj(g, es, u);
    AddedAdjOutcome(g, es, r);
    r
  }

  /** A graph whose every node has the successors `AddedAdj` gives is an outcome of the batch. */
  lemma AddedAdjOutcome(g: Graph, es: set<Edge>, r: Graph)
    requires r.Keys == g.Keys + Ends(es)
    requires forall u | u in r :: r[u] == AddedAdj(g, es, u)
    ensures AddsAll(g, es, r)
  {
    forall e | e in es
      ensures HasEdge(r, e.u, e.v) && Edge(e.u, e.v, r[e.u][e.v]) in es
    {
      assert e.v in Heads(es, e.u);
    }
    forall u, v | (u, v) !in PairsOf(es)
      ensures Entry(r, u, v) == Entry(g, u, v)
    {
      assert v !in Heads(es, u);
    }
  }

  /** A consistent batch has exactly one outcome, whatever the iteration order. */
  lemma AddsAllUnique(g: Graph, es: set<Edge>, r1: Graph, r2: Graph)
    requires Consistent(es) && AddsAll(g, es, r1) && AddsAll(g, es, r2)
    ensures r1 == r2
  {
    forall u, v
      ensures Entry(r1, u, v) == Entry(r2, u, v)
    {
      if (u, v) in PairsOf(es) {
        var e :| e in es && (e.u, e.v) == (u, v);
        assert Edge(u, v, r1[u][v]) in es && Edge(u, v, r2[u][v]) in es;
      }
    }
    GraphExt(r1, r2);
  }

  /** Adding a batch keeps every adjacency head a key. */
  lemma AddsAllClosed(g: Graph, es: set<Edge>, r: Graph)
    requires AddsAll(g, es, r) && Closed(g)
    ensures Closed(r)
  {
    forall u, v | u in r && v in r[u]
      ensures v in r
    {
      if (u, v) in PairsOf(es) {
        var e :| e in es && (e.u, e.v) == (u, v);
      } else {
        assert Entry(r, u, v) == Entry(g, u, v);
      }
    }
  }

  /** One iteration of `add_edges` extends the batch processed so far by one triple. */
  lemma AddOneStep(g: Graph, done: set<Edge>, prev: Graph, e: Edge, r: Graph)
    requires AddsAll(g, done, prev)
    requires r.Keys == prev.Keys + {e.u, e.v}
    requires Entry(r, e.u, e.v) == Some(e.w)
    requires forall u, v | (u, v) != (e.u, e.v) :: Entry(r, u, v) == Entry(prev, u, v)
    ensures AddsAll(g, done + {e}, r)
  {
    var all := done + {e};
    assert Ends(all) == Ends(done) + {e.u, e.v};
    forall u, v | (u, v) !in PairsOf(all)
      ensures Entry(r, u, v) == Entry(g, u, v)
    {
      assert (u, v) !in PairsOf(done);
      assert Entry(r, u, v) == Entry(prev, u, v);
    }
    forall d | d in all
      ensures HasEdge(r, d.u, d.v) && Edge(d.u, d.v, r[d.u][d.v]) in all
    {
      if (d.u, d.v) != (e.u, e.v) {
        assert Entry(r, d.u, d.v) == Entry(prev, d.u, d.v);
      }
    }
  }

  /** The body of the `add_edges` loop for one triple `(u, v, w)`. */
  method AddEdge(g: Graph, e: Edge) returns (r: Graph)
    ensures r.Keys == g.Keys + {e.u, e.v}
    ensures Entry(r, e.u, e.v) == Some(e.w)
    ensures forall u, v | (u, v) != (e.u, e.v) :: Entry(r, u, v) == Entry(g, u, v)
  {
    r := g;
    if e.u !in r {
      r := r[e.u := map[]];
    }
    if e.v !in r {
      r := r[e.v := map[]];
    }
    r := r[e.u := r[e.u][e.v := e.w]];
  }

  lemma AddsAllFacts(g: Graph, es: set<Edge>, r: Graph)
    requires AddsAll(g, es, r)
    ensures Consistent(es) ==> r == Added(g, es)
    ensures Closed(g) ==> Closed(r)
  {
    if Consistent(es) {
      AddsAllUnique(g, es, r, Added(g, es));
    }
    if Closed(g) {
      AddsAllClosed(g, es, r);
    }
  }

  /** `add_edges`: for each triple create missing endpoints, then set `graph[u][v] = w`. */
  method AddEdges(g: Graph, edges: set<Edge>) returns (r: Graph)
    ensures AddsAll(g, edges, r)
    ensures Consistent(edges) ==> r == Added(g, edges)
    ensures Closed(g) ==> Closed(r)
  {
    r := g;
    var todo := edges;
    ghost var done: set<Edge> := {};
    while todo != {}
      invariant done + todo == edges
      invariant AddsAll(g, done, r)
      decreases todo
    {
      var e :| e in todo;
      ghost var prev := r;
      r := AddEdge(r, e);
      AddOneStep(g, done, prev, e, r);
      done := done + {e};
      todo := todo - {e};
    }
    AddsAllFacts(g, edges, r);
  }

  /** The graph left after deleting every listed pair that is present. */
  function Removed(g: Graph, pairs: set<Pair>): (r: Graph)
    ensures r.Keys == g.Keys
    ensures forall u, v :: Entry(r, u, v) == if (u, v) in pairs then None else Entry(g, u, v)
    ensures Closed(g) ==> Closed(r)
  {
    map u | u in g :: g[u] - (set p | p in pairs && p.0 == u :: p.1)
  }

  /**
    `remove_edges`: delete each listed pair; a pair whose tail is not a key or whose edge is
    absent raises a KeyError that the source reports and skips, so the batch never aborts.
  */
  method RemoveEdges(g: Graph, pairs: set<Pair>) returns (r: Graph)
    ensures r == Removed(g, pairs)
  {
    r := g;
    var todo := pairs;
    while todo != {}
      invariant todo <= pairs
      invariant r.Keys == g.Keys
      invariant forall u, v :: Entry(r, u, v) == if (u, v) in pairs - todo then None else Entry(g, u, v)
      decreases todo
    {
      var p :| p in todo;
      var (u, v) := p;
      if u in r && v in r[u] {
        r := r[u := r[u] - {v}];
      }
      todo := todo - {p};
    }
    GraphExt(r, Removed(g, pairs));
  }

  /** Removing the same batch a second time changes nothing. */
  lemma RemovedIdempotent(g: Graph, pairs: set<Pair>)
    ensures Removed(Removed(g, pairs), pairs) == Removed(g, pairs)
  {
    GraphExt(Removed(Removed(g, pairs), pairs), Removed(g, pairs));
  }

  /** `edges`: one triple per adjacency entry. */
  function Edges(g: Graph): (r: set<Edge>)
    ensures forall e :: e in r <==> Entry(g, e.u, e.v) == Some(e.w)
    ensures forall e1, e2 | e1 in r && e2 in r && e1.u == e2.u && e1.v == e2.v :: e1 == e2
  {
    set u, v | u in g && v in g[u] :: Edge(u, v, g[u][v])
  }

  /** `nodes`: the key set of the graph. */
  function Nodes(g: Graph): (r: set<Node>)
    ensures r == g.Keys
    ensures Closed(g) ==> forall e | e in Edges(g) :: e.u in r && e.v in r
  {
    g.Keys
  }
}
