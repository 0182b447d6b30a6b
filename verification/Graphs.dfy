/** Finite directed graphs as `dict[str, tuple[str, ...]]`, walks and reachability. */
module Graphs {
  type Node = string
  type Graph = map<Node, seq<Node>>

  predicate Edge(g: Graph, u: Node, v: Node) { u in g && v in g[u] }

  /** Every edge ends at a node of the graph. */
  ghost predicate Closed(g: Graph) {
    forall u, v :: Edge(g, u, v) ==> v in g
  }

  ghost predicate Walk(g: Graph, p: seq<Node>) {
    && |p| > 0
    && (forall i :: 0 <= i < |p| ==> p[i] in g)
    && (forall i :: 0 < i < |p| ==> Edge(g, p[i - 1], p[i]))
  }

  ghost predicate WalkBetween(g: Graph, p: seq<Node>, u: Node, v: Node) {
    Walk(g, p) && p[0] == u && p[|p| - 1] == v
  }

  ghost predicate Reach(g: Graph, u: Node, v: Node) {
    exists p :: WalkBetween(g, p, u, v)
  }

  ghost predicate Mutual(g: Graph, u: Node, v: Node) {
    Reach(g, u, v) && Reach(g, v, u)
  }

  lemma ReachSelf(g: Graph, u: Node)
    requires u in g
    ensures Reach(g, u, u)
  {
    assert WalkBetween(g, [u], u, u);
  }

  lemma ReachEdge(g: Graph, u: Node, v: Node)
    requires Closed(g) && Edge(g, u, v)
    ensures Reach(g, u, v)
  {
    assert WalkBetween(g, [u, v], u, v);
  }

  lemma ReachTrans(g: Graph, u: Node, v: Node, w: Node)
    requires Reach(g, u, v) && Reach(g, v, w)
    ensures Reach(g, u, w)
  {
    var p :| WalkBetween(g, p, u, v);
    var q :| WalkBetween(g, q, v, w);
    var r := p + q[1..];
    forall i | 0 < i < |r| ensures Edge(g, r[i - 1], r[i]) {
      if i >= |p| {
        assert r[i] == q[i - |p| + 1];
        assert r[i - 1] == q[i - |p|];
      }
    }
    assert WalkBetween(g, r, u, w);
  }
}
