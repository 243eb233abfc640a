/**
  `shortest_path` of SuurballeGraph.py: run the (foreign) Dijkstra search, then walk the
  predecessor map back from `end` to `start` and reverse the walk.  The Dijkstra module is
  not part of this model: it is the parameter `dijkstra`, and `SoundOracle` states what the
  model assumes of its answers.
*/
module Paths {
  import opened Wrappers
  import opened Digraph

  /** The answer of one search: distances from the start and predecessors. */
  datatype Search = Search(dist: map<Node, int>, pred: map<Node, Node>)

  /** The Dijkstra search, as a function of graph, start and end. */
  type Oracle = (Graph, Node, Node) -> Search

  /**
    What a Dijkstra search of `g` towards `t` provides: `t` has a distance once it has a
    predecessor, and every node with both a distance and a predecessor is reached by an edge
    of `g` from a node with a distance, the distance growing by the edge weight.  A search
    that stops as soon as it settles `t` may leave predecessors without distances elsewhere.
  */
  ghost predicate SoundSearch(g: Graph, r: Search, t: Node) {
    && (t in r.pred ==> t in r.dist)
    && forall v | v in r.pred && v in r.dist ::
      && HasEdge(g, r.pred[v], v)
      && r.pred[v] in r.dist
      && r.dist[v] == r.dist[r.pred[v]] + g[r.pred[v]][v]
  }

  ghost predicate SoundOracle(dijkstra: Oracle) {
    forall g, s, t :: SoundSearch(g, dijkstra(g, s, t), t)
  }

  /**
    A search of `s -> a: 1, s -> b: 5, a -> b: 1` towards `a` that stops once `a` is settled:
    `b` has a predecessor but no distance, and the search is still sound.
  */
  lemma EarlyStopIsSound()
    ensures var g: Graph := map["s" := map["a" := 1, "b" := 5], "a" := map["b" := 1], "b" := map[]];
      SoundSearch(g, Search(map["s" := 0, "a" := 1], map["a" := "s", "b" := "s"]), "a")
  {
  }

  /** Consecutive pairs `(p[i], p[i+1])` of a path. */
  function Pairs(p: seq<Node>): set<Pair> {
    set i {:trigger p[i]} | 0 <= i < |p| - 1 :: (p[i], p[i + 1])
  }

  /** The same pairs reversed, `(p[i+1], p[i])`. */
  function RevPairs(p: seq<Node>): set<Pair> {
    set i {:trigger p[i]} | 0 <= i < |p| - 1 :: (p[i + 1], p[i])
  }

  ghost predicate Distinct(p: seq<Node>) {
    forall i, j | 0 <= i < j < |p| :: p[i] != p[j]
  }

  /** Every consecutive pair of `p` is an edge of `g`. */
  ghost predicate IsPath(g: Graph, p: seq<Node>) {
    forall i {:trigger p[i]} | 0 <= i < |p| - 1 :: HasEdge(g, p[i], p[i + 1])
  }

  function PathWeight(g: Graph, p: seq<Node>): int
    requires IsPath(g, p)
  {
    if |p| <= 1 then 0 else g[p[0]][p[1]] + PathWeight(g, p[1..])
  }

  function Reversed(s: seq<Node>): (r: seq<Node>)
    ensures |r| == |s|
  {
    if s == [] then [] else [s[|s| - 1]] + Reversed(s[..|s| - 1])
  }

  function Then(o: Option<seq<Node>>, suffix: seq<Node>): Option<seq<Node>> {
    match o
    case None => None
    case Some(p) => Some(p + suffix)
  }

  /**
    The walk `end, pred[end], pred[pred[end]], ...` back to `s`, returned in forward order.
    It fails on a node without predecessor, and after `fuel` links.
  */
  function Walk(pred: map<Node, Node>, s: Node, cur: Node, fuel: nat): Option<seq<Node>>
    decreases fuel
  {
    if cur == s then Some([s])
    else if cur !in pred || fuel == 0 then None
    else Then(Walk(pred, s, pred[cur], fuel - 1), [cur])
  }

  lemma ThenAppend(o: Option<seq<Node>>, a: seq<Node>, b: seq<Node>)
    ensures Then(Then(o, a), b) == Then(o, a + b)
    ensures Then(o, []) == o
  {
    if o.Some? {
      assert o.value + a + b == o.value + (a + b);
      assert o.value + [] == o.value;
    }
  }

  /** The walk with one link per predecessor entry, enough for any walk that reaches `s`. */
  function Reconstruct(pred: map<Node, Node>, s: Node, t: Node): Option<seq<Node>> {
    Walk(pred, s, t, |pred|)
  }

  /** What `shortest_path(graph, s, t)` returns: the path and the distance table, or `([], {})`. */
  function SearchPath(dijkstra: Oracle, g: Graph, s: Node, t: Node): (seq<Node>, map<Node, int>) {
    var found := dijkstra(g, s, t);
    match Reconstruct(found.pred, s, t)
    case Some(p) => (p, found.dist)
    case None => ([], map[])
  }

  /**
    A successful walk goes from `s` to `cur`, each node's predecessor is the node before it,
    and no node repeats.
  */
  lemma {:induction false} WalkShape(pred: map<Node, Node>, s: Node, cur: Node, fuel: nat, p: seq<Node>)
    requires Walk(pred, s, cur, fuel) == Some(p)
    ensures 1 <= |p| <= fuel + 1 && p[0] == s && p[|p| - 1] == cur
    ensures forall i | 1 <= i < |p| :: p[i] in pred && pred[p[i]] == p[i - 1]
    ensures Distinct(p)
    decreases fuel
  {
    if cur != s {
      var q := Walk(pred, s, pred[cur], fuel - 1).value;
      WalkShape(pred, s, pred[cur], fuel - 1, q);
      assert p == q + [cur];
      forall i | 1 <= i < |q|
        ensures q[i] != cur
      {
        assert pred[q[i]] == q[i - 1];
      }
    }
  }

  /**
    The walk finds every predecessor chain from `s` to `t` that repeats no node, so the
    fuel never cuts short a walk that reaches `s`: a walk the source completes repeats no
    node, since otherwise it would go round the cycle for ever.
  */
  lemma ReconstructFinds(pred: map<Node, Node>, s: Node, t: Node, q: seq<Node>)
    requires |q| >= 1 && q[0] == s && q[|q| - 1] == t && Distinct(q)
    requires forall i | 1 <= i < |q| :: q[i] in pred && pred[q[i]] == q[i - 1]
    ensures Reconstruct(pred, s, t) == Some(q)
  {
    ChainFitsFuel(pred, q);
    WalkFinds(pred, s, q, |q| - 1, |pred|);
    assert q[..|q|] == q;
  }

  /** The walk from the `k`-th node of a chain retraces the chain's first `k + 1` nodes. */
  lemma {:induction false} WalkFinds(pred: map<Node, Node>, s: Node, q: seq<Node>, k: nat, fuel: nat)
    requires k < |q| && k <= fuel && q[0] == s && Distinct(q)
    requires forall i | 1 <= i < |q| :: q[i] in pred && pred[q[i]] == q[i - 1]
    ensures Walk(pred, s, q[k], fuel) == Some(q[..k + 1])
    decreases k
  {
    if k == 0 {
      assert q[..1] == [s];
    } else {
      assert q[k] != q[0];
      WalkFinds(pred, s, q, k - 1, fuel - 1);
      assert q[..k + 1] == q[..k] + [q[k]];
    }
  }

  /** A chain without repeats has at most one link per predecessor entry. */
  lemma ChainFitsFuel(pred: map<Node, Node>, q: seq<Node>)
    requires |q| >= 1 && Distinct(q)
    requires forall i | 1 <= i < |q| :: q[i] in pred
    ensures |q| - 1 <= |pred|
  {
    var tail := q[1..];
    var heads := set x | x in tail;
    DistinctCard(tail);
    assert heads <= pred.Keys;
    SubsetCard(heads, pred.Keys);
  }

  /** A sequence without repeats has as many distinct elements as positions. */
  lemma {:induction false} DistinctCard(q: seq<Node>)
    requires Distinct(q)
    ensures |set x | x in q| == |q|
  {
    if |q| > 0 {
      var r := q[..|q| - 1];
      DistinctCard(r);
      assert (set x | x in q) == (set x | x in r) + {q[|q| - 1]};
      assert q[|q| - 1] !in (set x | x in r);
    }
  }

  lemma SubsetCard(a: set<Node>, b: set<Node>)
    requires a <= b
    ensures |a| <= |b|
  {
    assert b == a + (b - a);
  }

  /** The path `shortest_path` returns: `[s]` when `s == t`, otherwise a walk from `s` to `t` or nothing. */
  lemma SearchPathShape(dijkstra: Oracle, g: Graph, s: Node, t: Node)
    ensures s == t ==> SearchPath(dijkstra, g, s, t).0 == [s]
    ensures var (p, w) := SearchPath(dijkstra, g, s, t);
      p == [] || (p[0] == s && p[|p| - 1] == t && Distinct(p) &&
                  w == dijkstra(g, s, t).dist &&
                  forall i | 1 <= i < |p| :: p[i] in dijkstra(g, s, t).pred && dijkstra(g, s, t).pred[p[i]] == p[i - 1])
  {
    var found := dijkstra(g, s, t);
    var o := Reconstruct(found.pred, s, t);
    if o.Some? {
      WalkShape(found.pred, s, t, |found.pred|, o.value);
    }
  }

  /**
    Against a sound search, the returned path runs along edges of the searched graph, every
    node on it has a distance, each step weighs the distance difference of its ends, and so
    does the whole path.
  */
  lemma SearchPathSound(dijkstra: Oracle, g: Graph, s: Node, t: Node)
    requires SoundSearch(g, dijkstra(g, s, t), t)
    ensures var (p, w) := SearchPath(dijkstra, g, s, t);
      && IsPath(g, p)
      && (|p| >= 2 ==> (forall i | 0 <= i < |p| :: p[i] in w) && PathWeight(g, p) == w[p[|p| - 1]] - w[p[0]])
      && (|p| >= 2 ==> forall i | 0 <= i < |p| - 1 :: g[p[i]][p[i + 1]] == w[p[i + 1]] - w[p[i]])
  {
    SearchPathShape(dijkstra, g, s, t);
    var (p, w) := SearchPath(dijkstra, g, s, t);
    var found := dijkstra(g, s, t);
    if |p| >= 2 {
      ChainHasDistances(g, found, t, p, 0);
      forall i {:trigger p[i]} | 0 <= i < |p| - 1
        ensures HasEdge(g, p[i], p[i + 1]) && p[i] in w && p[i + 1] in w
        ensures g[p[i]][p[i + 1]] == w[p[i + 1]] - w[p[i]]
      {
        assert found.pred[p[i + 1]] == p[i];
      }
      ChainWeight(g, p, w);
    }
  }

  /**
    Walking a predecessor chain back from `t` in a sound search never leaves the nodes with
    a distance: every node of the chain from position `k` on has one.
  */
  lemma {:induction false} ChainHasDistances(g: Graph, r: Search, t: Node, p: seq<Node>, k: nat)
    requires SoundSearch(g, r, t)
    requires 2 <= |p| && p[|p| - 1] == t && k < |p|
    requires forall i | 1 <= i < |p| :: p[i] in r.pred && r.pred[p[i]] == p[i - 1]
    ensures forall i | k <= i < |p| :: p[i] in r.dist
    decreases |p| - k
  {
    if k < |p| - 1 {
      ChainHasDistances(g, r, t, p, k + 1);
      assert r.pred[p[k + 1]] == p[k];
    }
  }

  /** A path whose every step weighs the difference of the table entries telescopes. */
  lemma {:induction false} ChainWeight(g: Graph, p: seq<Node>, w: map<Node, int>)
    requires |p| >= 1
    requires forall i | 0 <= i < |p| :: p[i] in w
    requires IsPath(g, p)
    requires forall i {:trigger p[i]} | 0 <= i < |p| - 1 :: g[p[i]][p[i + 1]] == w[p[i + 1]] - w[p[i]]
    ensures PathWeight(g, p) == w[p[|p| - 1]] - w[p[0]]
  {
    if |p| >= 2 {
      ChainWeight(g, p[1..], w);
    }
  }

  /** `shortest_path(graph, s, t)` with the search done by `dijkstra`. */
  method ShortestPath(dijkstra: Oracle, g: Graph, s: Node, t: Node) returns (path: seq<Node>, weights: map<Node, int>)
    ensures (path, weights) == SearchPath(dijkstra, g, s, t)
  {
    var found := dijkstra(g, s, t);
    var pred := found.pred;
    var minimal: seq<Node> := [];
    var end := t;
    var fuel: nat := |pred|;
    ThenAppend(Reconstruct(pred, s, t), [], []);
    while end != s
      invariant Then(Walk(pred, s, end, fuel), Reversed(minimal)) == Reconstruct(pred, s, t)
      decreases fuel
    {
      minimal := minimal + [end];
      if end !in pred || fuel == 0 {
        // A missing predecessor: the source catches the KeyError and returns ([], {}).
        // Running out of links means the walk cycles; the source would loop forever.
        return [], map[];
      }
      assert Reversed(minimal) == [end] + Reversed(minimal[..|minimal| - 1]);
      ThenAppend(Walk(pred, s, pred[end], fuel - 1), [end], Reversed(minimal[..|minimal| - 1]));
      end := pred[end];
      fuel := fuel - 1;
    }
    minimal := minimal + [s];
    assert Reversed(minimal) == [s] + Reversed(minimal[..|minimal| - 1]);
    path := Reversed(minimal);
    weights := found.dist;
  }
}
