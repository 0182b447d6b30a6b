/** Tarjan's depth-first search of `strongly_connected_components`
    (scripts/ci/package_dependency_audit.py), step by step on mutable state. */
module StrongComponents {
  import opened Graphs
  import opened Sorting

  /** A snapshot of the search. `gray` holds the nodes whose visit has not returned yet. */
  datatype Search = Search(
    index: nat,
    indices: map<Node, nat>,
    stack: seq<Node>,
    gray: set<Node>,
    components: seq<seq<Node>>)

  ghost predicate IsComponent(g: Graph, c: seq<Node>) {
    && c != []
    && (forall i, j :: 0 <= i < j < |c| ==> c[i] != c[j])
    && (forall u :: u in c ==> u in g)
    && (forall u, v :: u in c && v in g ==> (v in c <==> Mutual(g, u, v)))
  }

  ghost predicate Assigned(s: Search, v: Node) {
    exists c :: c in s.components && v in c
  }

  ghost predicate Scoped(g: Graph, s: Search) {
    && Closed(g)
    && (forall v :: v in s.indices ==> v in g)
    && (forall v :: v in s.stack ==> v in s.indices)
    && (forall v :: v in s.gray ==> v in s.stack)
  }

  ghost predicate Ordered(s: Search) {
    && (forall v :: v in s.stack ==> v in s.indices)
    && (forall v :: v in s.indices ==> s.indices[v] < s.index)
    && (forall i, j :: 0 <= i < j < |s.stack| ==> s.indices[s.stack[i]] < s.indices[s.stack[j]])
  }

  /** Finished nodes point at discovered nodes only. */
  ghost predicate Explored(g: Graph, s: Search) {
    forall u, v :: u in s.indices && u !in s.gray && Edge(g, u, v) ==> v in s.indices
  }

  /** Some unfinished node no younger than `y` is reachable from `y`. */
  ghost predicate Anchor(g: Graph, s: Search, y: Node, x: Node) {
    x in s.gray && x in s.indices && y in s.indices && s.indices[x] <= s.indices[y] && Reach(g, y, x)
  }

  ghost predicate Anchored(g: Graph, s: Search) {
    forall y :: y in s.stack ==> exists x :: Anchor(g, s, y, x)
  }

  ghost predicate Linked(g: Graph, s: Search) {
    forall i, j :: 0 <= i <= j < |s.stack| ==> Reach(g, s.stack[i], s.stack[j])
  }

  ghost predicate Settled(g: Graph, s: Search) {
    && (forall c :: c in s.components ==> IsComponent(g, c) && Sorted(c, StringLe))
    && (forall v :: v in s.indices ==> (v in s.stack <==> !Assigned(s, v)))
    && (forall v :: Assigned(s, v) ==> v in s.indices)
    && (forall i, j :: 0 <= i < j < |s.components| ==> s.components[i] != s.components[j])
  }

  /** What the search keeps at every step of every run. */
  ghost predicate Inv(g: Graph, s: Search) {
    Scoped(g, s) && Ordered(s) && Explored(g, s) && Linked(g, s) && Anchored(g, s) && Settled(g, s)
  }

  /** `t` continues `s`: discovery numbers, the stack below and finished components stay. */
  ghost predicate Extends(s: Search, t: Search) {
    && s.index <= t.index
    && (forall v :: v in s.indices ==> v in t.indices && t.indices[v] == s.indices[v])
    && s.stack <= t.stack
    && s.gray == t.gray
  }

  /** `low` is the discovery number of a stacked node reachable from `v`, no larger than that of `v`. */
  ghost predicate LowOf(g: Graph, s: Search, v: Node, low: nat, y: Node) {
    && v in s.indices && low <= s.indices[v]
    && y in s.stack && y in s.indices && s.indices[y] == low && Reach(g, v, y)
  }

  /** `low` bounds every stack node below `base` that is the target of an examined edge from
      above; of `node` only the first `k` targets are examined so far. */
  ghost predicate ExitBound(g: Graph, s: Search, base: nat, low: nat, node: Node, k: nat)
  {
    base <= |s.stack| && node in g && k <= |g[node]| &&
    forall i, v | base <= i < |s.stack| && v in s.stack[..base] && Edge(g, s.stack[i], v)
                  && (s.stack[i] != node || v in g[node][..k]) ::
      v in s.indices && low <= s.indices[v]
  }

  function Enter(s: Search, node: Node): Search {
    Search(s.index + 1, s.indices[node := s.index], s.stack + [node], s.gray + {node}, s.components)
  }

  /** The visit of `node` returns and leaves it on the stack. */
  function Leave(s: Search, node: Node): Search {
    s.(gray := s.gray - {node})
  }

  /** The visit of `node` returns and pops its component. */
  function Close(s: Search, node: Node, base: nat): Search
    requires base <= |s.stack|
  {
    s.(stack := s.stack[..base], gray := s.gray - {node},
       components := s.components + [Sort(Reversed(s.stack[base..]), StringLe)])
  }

  /** The pop order of a stack segment. */
  function Reversed(s: seq<Node>): seq<Node> {
    if s == [] then [] else Reversed(s[1..]) + [s[0]]
  }

  // ----- entering a node

  lemma GrayReachable(g: Graph, s: Search, node: Node, y: Node)
    requires Anchored(g, s) && y in s.stack
    requires forall x :: x in s.gray ==> Reach(g, x, node)
    ensures Reach(g, y, node)
  {
    hide Reach;
    var x :| Anchor(g, s, y, x);
    ReachTrans(g, y, x, node);
  }

  lemma EnterLinked(g: Graph, s: Search, node: Node)
    requires Linked(g, s) && Anchored(g, s) && node in g
    requires forall x :: x in s.gray ==> Reach(g, x, node)
    ensures Linked(g, Enter(s, node))
  {
    ReachSelf(g, node);
    hide Reach, Anchored;
    var t := Enter(s, node);
    forall i, j | 0 <= i <= j < |t.stack| ensures Reach(g, t.stack[i], t.stack[j]) {
      if i < |s.stack| {
        GrayReachable(g, s, node, s.stack[i]);
      }
    }
  }

  lemma EnterAnchored(g: Graph, s: Search, node: Node)
    requires Anchored(g, s) && node in g && node !in s.indices
    ensures Anchored(g, Enter(s, node))
  {
    ReachSelf(g, node);
    hide Reach;
    var t := Enter(s, node);
    forall y | y in t.stack ensures exists x :: Anchor(g, t, y, x) {
      if y == node {
        assert Anchor(g, t, node, node);
      } else {
        var x :| Anchor(g, s, y, x);
        assert Anchor(g, t, y, x);
      }
    }
  }

  lemma EnterSettled(g: Graph, s: Search, node: Node)
    requires Settled(g, s) && node !in s.indices
    ensures Settled(g, Enter(s, node))
  {
    hide IsComponent;
    var t := Enter(s, node);
    assert forall v :: Assigned(t, v) <==> Assigned(s, v);
  }

  lemma EnterOrdered(s: Search, node: Node)
    requires Ordered(s) && node !in s.indices
    ensures Ordered(Enter(s, node))
  {
    var t := Enter(s, node);
    forall i, j | 0 <= i < j < |t.stack| ensures t.indices[t.stack[i]] < t.indices[t.stack[j]] {
      assert s.stack[i] in s.stack;
      if j < |s.stack| { assert s.stack[j] in s.stack; }
    }
  }

  lemma EnterExplored(g: Graph, s: Search, node: Node)
    requires Scoped(g, s) && Explored(g, s) && node in g
    ensures Scoped(g, Enter(s, node)) && Explored(g, Enter(s, node))
  {}

  lemma EnterBounds(g: Graph, s: Search, node: Node)
    requires node in g
    ensures LowOf(g, Enter(s, node), node, s.index, node)
    ensures ExitBound(g, Enter(s, node), |s.stack|, s.index, node, 0)
  {
    ReachSelf(g, node);
    hide Reach;
  }

  lemma EnterKeeps(g: Graph, s: Search, node: Node)
    requires Inv(g, s) && node in g && node !in s.indices
    requires forall x :: x in s.gray ==> Reach(g, x, node)
    ensures Inv(g, Enter(s, node))
  {
    hide Reach, Linked, Anchored, Settled, Ordered, Explored;
    EnterExplored(g, s, node);
    EnterLinked(g, s, node);
    EnterAnchored(g, s, node);
    EnterSettled(g, s, node);
    EnterOrdered(s, node);
  }

  // ----- leaving a node on the stack

  lemma LeaveAnchored(g: Graph, s: Search, node: Node, low: nat, w: Node)
    requires Anchored(g, s)
    requires LowOf(g, s, node, low, w) && low != s.indices[node]
    ensures Anchored(g, Leave(s, node))
  {
    hide Reach;
    var t := Leave(s, node);
    var z :| Anchor(g, s, w, z);
    ReachTrans(g, node, w, z);
    forall y | y in t.stack ensures exists x :: Anchor(g, t, y, x) {
      var x :| Anchor(g, s, y, x);
      if x == node {
        ReachTrans(g, y, node, z);
        assert Anchor(g, t, y, z);
      } else {
        assert Anchor(g, t, y, x);
      }
    }
  }

  lemma LeaveSettled(g: Graph, s: Search, node: Node)
    requires Settled(g, s)
    ensures Settled(g, Leave(s, node))
  {
    hide IsComponent;
    var t := Leave(s, node);
    assert forall v :: Assigned(t, v) <==> Assigned(s, v);
  }

  lemma LeaveExplored(g: Graph, s: Search, node: Node)
    requires Scoped(g, s) && Explored(g, s)
    requires node in g && forall v :: v in g[node] ==> v in s.indices
    ensures Scoped(g, Leave(s, node)) && Explored(g, Leave(s, node))
  {}

  lemma LeaveOrdered(g: Graph, s: Search, node: Node)
    requires Ordered(s) && Linked(g, s)
    ensures Ordered(Leave(s, node)) && Linked(g, Leave(s, node))
  {
    hide Reach;
  }

  lemma LeaveKeeps(g: Graph, s: Search, node: Node, low: nat, w: Node)
    requires Inv(g, s) && node in s.gray
    requires LowOf(g, s, node, low, w) && low != s.indices[node]
    requires node in g && forall v :: v in g[node] ==> v in s.indices
    ensures Inv(g, Leave(s, node))
  {
    hide Reach, Linked, Anchored, Settled, Ordered, Explored, Scoped;
    LeaveAnchored(g, s, node, low, w);
    LeaveSettled(g, s, node);
    LeaveExplored(g, s, node);
    LeaveOrdered(g, s, node);
  }

  // ----- closing a component

  /** At the moment of the `lowlinks[node] == indices[node]` test. */
  ghost predicate Root(g: Graph, s: Search, node: Node, base: nat) {
    && base < |s.stack| && s.stack[base] == node && node in s.gray && node in s.indices && node in g
    && (forall x :: x in s.gray ==> x in s.stack[..base + 1] && Reach(g, x, node))
    && ExitBound(g, s, base, s.indices[node], node, |g[node]|)
    && (forall w :: w in g[node] ==> w in s.indices)
  }

  lemma SegmentMutual(g: Graph, s: Search, node: Node, base: nat, i: nat)
    requires Anchored(g, s) && Linked(g, s) && Root(g, s, node, base) && base <= i < |s.stack|
    ensures Mutual(g, node, s.stack[i])
  {
    hide Reach;
    var y := s.stack[i];
    assert y in s.stack;
    var x :| Anchor(g, s, y, x);
    ReachTrans(g, y, x, node);
  }

  /** Below the segment everything is older than its root. */
  lemma BelowIsOlder(s: Search, base: nat, b: Node)
    requires Ordered(s) && base < |s.stack| && b in s.stack[..base]
    ensures b in s.indices && s.stack[base] in s.indices && s.indices[b] < s.indices[s.stack[base]]
  {
    var j :| 0 <= j < base && s.stack[j] == b;
  }

  lemma SegmentFinished(g: Graph, s: Search, node: Node, base: nat, i: nat)
    requires Ordered(s) && Root(g, s, node, base) && base < i < |s.stack|
    ensures s.stack[i] !in s.gray
  {
    hide Reach, ExitBound;
    assert forall j :: 0 <= j <= base ==> s.stack[j] != s.stack[i];
    assert s.stack[i] !in s.stack[..base + 1];
  }

  lemma SegmentTargetKnown(g: Graph, s: Search, node: Node, base: nat, i: nat, b: Node)
    requires Ordered(s) && Explored(g, s) && Root(g, s, node, base)
    requires base <= i < |s.stack| && Edge(g, s.stack[i], b)
    ensures b in s.indices
  {
    hide Reach, ExitBound;
    if base < i {
      SegmentFinished(g, s, node, base, i);
      assert s.stack[i] in s.stack;
    }
  }

  lemma NothingBelow(g: Graph, s: Search, node: Node, base: nat, i: nat, b: Node)
    requires Ordered(s) && Root(g, s, node, base)
    requires base <= i < |s.stack| && Edge(g, s.stack[i], b)
    ensures b !in s.stack[..base]
  {
    hide Reach;
    assert g[node][..|g[node]|] == g[node];
    if b in s.stack[..base] { BelowIsOlder(s, base, b); }
  }

  /** No edge leads out of the segment except to nodes already assigned to a component. */
  lemma SegmentExit(g: Graph, s: Search, node: Node, base: nat, i: nat, b: Node)
    requires Scoped(g, s) && Ordered(s) && Explored(g, s) && Settled(g, s)
    requires Root(g, s, node, base)
    requires base <= i < |s.stack| && b !in s.stack[base..] && Edge(g, s.stack[i], b)
    ensures Assigned(s, b)
  {
    hide Scoped, Ordered, Explored, Root, IsComponent, Sorted, Assigned;
    SegmentTargetKnown(g, s, node, base, i, b);
    NothingBelow(g, s, node, base, i, b);
    assert base <= |s.stack| && s.stack == s.stack[..base] + s.stack[base..];
  }

  lemma SegmentClosed(g: Graph, s: Search, node: Node, base: nat, i: nat, v: Node)
    requires Inv(g, s) && Root(g, s, node, base)
    requires base <= i < |s.stack| && Mutual(g, s.stack[i], v)
    ensures v in s.stack[base..]
  {
    hide Reach, Linked, Anchored, Explored, Ordered, Settled, ExitBound;
    var u := s.stack[i];
    var segment := s.stack[base..];
    forall b, k | 0 <= k < |segment| && b !in segment && Edge(g, segment[k], b)
      ensures !(Reach(g, u, segment[k]) && Reach(g, b, v)) {
      SegmentExit(g, s, node, base, base + k, b);
      AssignedStaysOff(g, s, segment[k], b, u, v);
    }
    assert u == segment[i - base];
    NoExit(g, u, v, segment);
  }

  /** What is reachable lies inside any list of nodes that no connecting edge leaves. */
  lemma NoExit(g: Graph, u: Node, v: Node, segment: seq<Node>)
    requires Reach(g, u, v) && u in segment
    requires forall b, k | 0 <= k < |segment| && b !in segment && Edge(g, segment[k], b) ::
      !(Reach(g, u, segment[k]) && Reach(g, b, v))
    ensures v in segment
  {
    var p :| WalkBetween(g, p, u, v);
    hide Reach;
    var i := 0;
    while i + 1 < |p|
      invariant i < |p| && p[i] in segment
    {
      PartsOfWalk(g, p, u, v, i);
      i := i + 1;
    }
  }

  lemma PartsOfWalk(g: Graph, p: seq<Node>, u: Node, v: Node, i: nat)
    requires WalkBetween(g, p, u, v) && i + 1 < |p|
    ensures Edge(g, p[i], p[i + 1]) && Reach(g, u, p[i]) && Reach(g, p[i + 1], v)
  {
    assert WalkBetween(g, p[..i + 1], u, p[i]);
    assert WalkBetween(g, p[i + 1..], p[i + 1], v);
  }

  /** An edge from the stack to an assigned node cannot lie on a cycle. */
  lemma AssignedStaysOff(g: Graph, s: Search, a: Node, b: Node, u: Node, v: Node)
    requires Scoped(g, s) && Settled(g, s) && Assigned(s, b) && Edge(g, a, b) && a in s.stack
    requires Reach(g, v, u)
    ensures !(Reach(g, u, a) && Reach(g, b, v))
  {
    hide Reach;
    var c :| c in s.components && b in c;
    ReachEdge(g, a, b);
    if Reach(g, u, a) && Reach(g, b, v) {
      ReachTrans(g, b, v, u);
      ReachTrans(g, b, u, a);
    }
    assert IsComponent(g, c);
    assert !Assigned(s, a);
    assert a !in c;
    assert a in g;
  }

  lemma {:induction false} ReversedPermutes(s: seq<Node>)
    ensures multiset(Reversed(s)) == multiset(s)
  {
    if s != [] {
      ReversedPermutes(s[1..]);
      assert s == [s[0]] + s[1..];
    }
  }

  lemma {:induction false} DistinctIffCounts<T>(c: seq<T>)
    ensures (forall i, j :: 0 <= i < j < |c| ==> c[i] != c[j]) <==> forall x :: multiset(c)[x] <= 1
  {
    if c != [] {
      var d := c[1..];
      DistinctIffCounts(d);
      assert c == [c[0]] + d;
      assert multiset(c) == multiset{c[0]} + multiset(d);
      if forall x :: multiset(c)[x] <= 1 {
        assert multiset(c)[c[0]] == 1 + multiset(d)[c[0]];
        assert c[0] !in multiset(d);
        forall x ensures multiset(d)[x] <= 1 { assert multiset(d)[x] <= multiset(c)[x]; }
        forall i, j | 0 <= i < j < |c| ensures c[i] != c[j] {
          assert c[j] == d[j - 1];
          if i > 0 { assert c[i] == d[i - 1]; } else { assert d[j - 1] in multiset(d); }
        }
      }
      if forall i, j :: 0 <= i < j < |c| ==> c[i] != c[j] {
        forall i, j | 0 <= i < j < |d| ensures d[i] != d[j] {
          assert c[i + 1] != c[j + 1];
        }
        assert forall j :: 0 <= j < |d| ==> d[j] == c[j + 1] != c[0];
        assert c[0] !in multiset(d);
      }
    }
  }

  /** The emitted tuple: the popped segment, each node once, in Python's string order. */
  lemma EmittedTuple(segment: seq<Node>)
    requires forall i, j :: 0 <= i < j < |segment| ==> segment[i] != segment[j]
    ensures var c := Sort(Reversed(segment), StringLe);
      && |c| == |segment| && Sorted(c, StringLe)
      && (forall i, j :: 0 <= i < j < |c| ==> c[i] != c[j])
      && (forall v :: v in c <==> v in segment)
  {
    var c := Sort(Reversed(segment), StringLe);
    ReversedPermutes(segment);
    SortPermutes(Reversed(segment), StringLe);
    assert multiset(c) == multiset(segment);
    StringPreorder(Reversed(segment));
    SortSorts(Reversed(segment), StringLe);
    DistinctIffCounts(segment);
    DistinctIffCounts(c);
    assert |c| == |multiset(c)| == |segment|;
    forall v ensures v in c <==> v in segment {
      assert v in c <==> v in multiset(c);
      assert v in segment <==> v in multiset(segment);
    }
  }

  lemma SegmentDistinct(s: Search, base: nat)
    requires Ordered(s) && base <= |s.stack|
    ensures forall i, j :: 0 <= i < j < |s.stack[base..]| ==> s.stack[base..][i] != s.stack[base..][j]
    ensures forall v :: v in s.stack[base..] ==> v !in s.stack[..base]
  {
    forall v | v in s.stack[base..] ensures v !in s.stack[..base] {
      var j :| base <= j < |s.stack| && s.stack[j] == v;
    }
  }

  /** The popped segment is exactly one class of mutual reachability. */
  lemma SegmentIsClass(g: Graph, s: Search, node: Node, base: nat, i: nat, v: Node)
    requires Inv(g, s) && Root(g, s, node, base) && base <= i < |s.stack|
    ensures v in s.stack[base..] <==> Mutual(g, s.stack[i], v)
  {
    hide Reach, Linked, Anchored, Explored, Ordered, Settled, ExitBound;
    var u := s.stack[i];
    SegmentMutual(g, s, node, base, i);
    if v in s.stack[base..] {
      var j :| base <= j < |s.stack| && s.stack[j] == v;
      SegmentMutual(g, s, node, base, j);
      ReachTrans(g, u, node, v);
      ReachTrans(g, v, node, u);
    } else if Mutual(g, u, v) {
      SegmentClosed(g, s, node, base, i, v);
    }
  }

  lemma CloseIsComponent(g: Graph, s: Search, node: Node, base: nat, c: seq<Node>)
    requires Inv(g, s) && Root(g, s, node, base)
    requires c == Sort(Reversed(s.stack[base..]), StringLe)
    ensures IsComponent(g, c) && Sorted(c, StringLe)
    ensures forall v :: v in c <==> v in s.stack[base..]
  {
    hide Reach, Linked, Anchored, Explored, Settled, ExitBound, Sort, Reversed, Sorted, Ordered;
    SegmentDistinct(s, base);
    EmittedTuple(s.stack[base..]);
    assert node == s.stack[base..][0];
    assert node in c;
    assert forall v :: v in s.stack[base..] ==> v in s.stack;
    forall u, v | u in c && v in g ensures v in c <==> Mutual(g, u, v) {
      var i :| base <= i < |s.stack| && s.stack[i] == u;
      SegmentIsClass(g, s, node, base, i, v);
    }
  }

  lemma SettleOneMore(g: Graph, s: Search, t: Search, base: nat, c: seq<Node>)
    requires Settled(g, s) && base < |s.stack| && s.stack[base] in s.indices
    requires IsComponent(g, c) && Sorted(c, StringLe)
    requires forall v :: v in c <==> v in s.stack[base..]
    requires forall v :: v in s.stack[base..] ==> v !in s.stack[..base] && v in s.indices
    requires t.indices == s.indices && t.stack == s.stack[..base] && t.components == s.components + [c]
    ensures Settled(g, t)
  {
    hide IsComponent, Sorted;
    forall v ensures Assigned(t, v) <==> Assigned(s, v) || v in s.stack[base..] {
      if Assigned(s, v) { var d :| d in s.components && v in d; assert d in t.components; }
      if v in s.stack[base..] { assert c in t.components; }
    }
    assert s.stack == s.stack[..base] + s.stack[base..];
    assert s.stack[base..][0] in c;
    assert !Assigned(s, s.stack[base]);
    assert c !in s.components;
  }

  lemma CloseSettled(g: Graph, s: Search, node: Node, base: nat)
    requires Inv(g, s) && Root(g, s, node, base)
    ensures Settled(g, Close(s, node, base))
  {
    hide Reach, Linked, Anchored, Explored, Ordered, Settled, ExitBound, Sort, Reversed, Sorted, IsComponent;
    var t := Close(s, node, base);
    var c := t.components[|s.components|];
    CloseIsComponent(g, s, node, base, c);
    SegmentDistinct(s, base);
    assert forall v :: v in s.stack[base..] ==> v in s.stack;
    SettleOneMore(g, s, t, base, c);
  }

  lemma CloseAnchored(g: Graph, s: Search, node: Node, base: nat)
    requires Ordered(s) && Anchored(g, s) && base < |s.stack| && s.stack[base] == node
    ensures Anchored(g, Close(s, node, base))
  {
    hide Reach, Sort, Reversed;
    var t := Close(s, node, base);
    forall y | y in t.stack ensures exists x :: Anchor(g, t, y, x) {
      var j :| 0 <= j < base && s.stack[j] == y;
      assert y in s.stack;
      var x :| Anchor(g, s, y, x);
      assert s.indices[y] < s.indices[node];
      assert Anchor(g, t, y, x);
    }
  }

  lemma CloseOrdered(g: Graph, s: Search, node: Node, base: nat)
    requires Ordered(s) && Linked(g, s) && base <= |s.stack|
    ensures Ordered(Close(s, node, base)) && Linked(g, Close(s, node, base))
  {
    hide Reach, Sort, Reversed;
  }

  lemma CloseExplored(g: Graph, s: Search, node: Node, base: nat)
    requires Scoped(g, s) && Explored(g, s) && Root(g, s, node, base)
    ensures Scoped(g, Close(s, node, base)) && Explored(g, Close(s, node, base))
  {
    hide Reach, Sort, Reversed, ExitBound;
    var t := Close(s, node, base);
    assert s.stack[..base + 1] == s.stack[..base] + [node];
    assert forall v :: v in t.stack ==> v in s.stack;
  }

  lemma CloseKeeps(g: Graph, s: Search, node: Node, base: nat)
    requires Inv(g, s) && Root(g, s, node, base)
    ensures Inv(g, Close(s, node, base))
  {
    CloseSettled(g, s, node, base);
    CloseAnchored(g, s, node, base);
    CloseOrdered(g, s, node, base);
    CloseExplored(g, s, node, base);
    hide Reach, Linked, Anchored, Settled, Ordered, Explored, Scoped, ExitBound, Sort, Reversed;
  }

  // ----- scanning the targets of a node

  ghost predicate HasLow(g: Graph, s: Search, v: Node, low: nat) {
    exists y :: LowOf(g, s, v, low, y)
  }

  /** `s0` is the state before the visit of `node`, `s` a state during it. */
  ghost predicate During(g: Graph, s0: Search, s: Search, node: Node) {
    && node in g && node !in s0.indices
    && s.gray == s0.gray + {node}
    && (forall x :: x in s.gray ==> Reach(g, x, node))
    && s0.stack + [node] <= s.stack
    && (forall v :: v in s0.stack ==> v in s0.indices)
    && (forall v :: v in s0.gray ==> v in s0.stack)
    && (forall v :: v in s0.indices ==> v in s.indices && s.indices[v] == s0.indices[v])
    && node in s.indices && s.indices[node] == s0.index < s.index
  }

  /** The loop over `graph[node]` has handled `k` targets. */
  ghost predicate Scanning(g: Graph, s0: Search, s: Search, node: Node, k: nat, low: nat) {
    && node in g && k <= |g[node]|
    && Inv(g, s) && During(g, s0, s, node) && HasLow(g, s, node, low)
    && ExitBound(g, s, |s0.stack|, low, node, k)
    && (forall j :: 0 <= j < k ==> g[node][j] in s.indices)
  }

  /** `low` bounds the discovery number of every node of the old stack that the new part points at. */
  ghost predicate EscapeBound(g: Graph, s: Search, t: Search, low: nat) {
    forall i, v | |s.stack| <= i < |t.stack| && v in s.stack && Edge(g, t.stack[i], v) ::
      v in t.indices && low <= t.indices[v]
  }

  /** What a finished visit of `node` guarantees; `low` is its final lowlink. */
  ghost predicate Visited(g: Graph, s: Search, t: Search, node: Node, low: nat) {
    && Inv(g, t) && Extends(s, t) && EscapeBound(g, s, t, low)
    && node in t.indices && t.indices[node] == s.index
    && (if node in t.stack then HasLow(g, t, node, low) else low == s.index)
  }

  lemma EnterDuring(g: Graph, s: Search, node: Node)
    requires Scoped(g, s) && node in g && node !in s.indices
    requires forall x :: x in s.gray ==> Reach(g, x, node)
    ensures During(g, s, Enter(s, node), node)
  {
    ReachSelf(g, node);
    hide Reach;
  }

  lemma ScanStart(g: Graph, s: Search, node: Node)
    requires node in g && node !in s.indices
    requires forall x :: x in s.gray ==> Reach(g, x, node)
    requires Inv(g, s)
    ensures Inv(g, Enter(s, node))
    ensures Scanning(g, s, Enter(s, node), node, 0, s.index)
  {
    hide Reach, Linked, Anchored, Settled, Ordered, Explored, Scoped, ExitBound, LowOf, During;
    EnterBounds(g, s, node);
    EnterDuring(g, s, node);
    EnterKeeps(g, s, node);
    assert HasLow(g, Enter(s, node), node, s.index);
  }

  /** A smaller bound and one more examined target, which may lie on the old stack. */
  lemma BoundOneMore(g: Graph, s: Search, base: nat, low: nat, low': nat, node: Node, k: nat)
    requires node in g && k < |g[node]| && low' <= low
    requires ExitBound(g, s, base, low, node, k)
    requires g[node][k] in s.stack ==> g[node][k] in s.indices && low' <= s.indices[g[node][k]]
    ensures ExitBound(g, s, base, low', node, k + 1)
  {
    assert g[node][..k + 1] == g[node][..k] + [g[node][k]];
    assert forall v :: v in s.stack[..base] ==> v in s.stack;
  }

  /** The target lies on the stack: `min(lowlinks[node], indices[target])`. */
  lemma ScanStacked(g: Graph, s0: Search, s: Search, node: Node, k: nat, low: nat, target: Node)
    requires node in g && k < |g[node]| && g[node][k] == target
    requires target in s.stack && target in s.indices
    requires Scanning(g, s0, s, node, k, low)
    ensures Scanning(g, s0, s, node, k + 1, Min(low, s.indices[target]))
  {
    hide Reach, Inv, ExitBound, During, Closed, Linked, Anchored, Settled, Ordered, Explored;
    ScanFacts(g, s0, s, node, k, low);
    BoundOneMore(g, s, |s0.stack|, low, Min(low, s.indices[target]), node, k);
    ReachEdge(g, node, target);
    if s.indices[target] < low {
      assert LowOf(g, s, node, s.indices[target], target);
    }
  }

  /** The target belongs to a finished component: nothing changes. */
  lemma ScanAssigned(g: Graph, s0: Search, s: Search, node: Node, k: nat, low: nat, target: Node)
    requires node in g && k < |g[node]| && g[node][k] == target
    requires target in s.indices && target !in s.stack
    requires Scanning(g, s0, s, node, k, low)
    ensures Scanning(g, s0, s, node, k + 1, low)
  {
    BoundOneMore(g, s, |s0.stack|, low, low, node, k);
    hide Reach, Inv, ExitBound, During, HasLow;
  }

  lemma RecursionBound(g: Graph, s0: Search, s: Search, t: Search, node: Node, k: nat, low: nat, lowT: nat)
    requires node in g && k < |g[node]| && g[node][k] !in s.indices
    requires s0.stack <= s.stack && forall v :: v in s0.stack ==> v in s.indices
    requires ExitBound(g, s, |s0.stack|, low, node, k)
    requires Extends(s, t) && EscapeBound(g, s, t, lowT)
    ensures ExitBound(g, t, |s0.stack|, Min(low, lowT), node, k + 1)
  {
    var base := |s0.stack|;
    assert g[node][..k + 1] == g[node][..k] + [g[node][k]];
    assert t.stack[..base] == s.stack[..base] == s0.stack;
    forall i, v | base <= i < |t.stack| && v in t.stack[..base] && Edge(g, t.stack[i], v)
                  && (t.stack[i] != node || v in g[node][..k + 1])
      ensures v in t.indices && Min(low, lowT) <= t.indices[v]
    {
      if i < |s.stack| {
        assert t.stack[i] == s.stack[i];
      } else {
        assert v in s.stack;
      }
    }
  }

  lemma RecursionLow(g: Graph, s: Search, t: Search, node: Node, low: nat, target: Node, lowT: nat)
    requires Closed(g) && Edge(g, node, target) && HasLow(g, s, node, low) && Extends(s, t)
    requires low <= s.index && (if target in t.stack then HasLow(g, t, target, lowT) else lowT == s.index)
    ensures HasLow(g, t, node, Min(low, lowT))
  {
    ReachEdge(g, node, target);
    hide Reach;
    var y :| LowOf(g, s, node, low, y);
    assert y in t.stack;
    if lowT < low {
      var z :| LowOf(g, t, target, lowT, z);
      ReachTrans(g, node, target, z);
      assert LowOf(g, t, node, lowT, z);
    } else {
      assert LowOf(g, t, node, low, y);
    }
  }

  /** The target was new and has been visited: `min(lowlinks[node], lowlinks[target])`. */
  lemma ScanVisited(g: Graph, s0: Search, s: Search, t: Search, node: Node, k: nat, low: nat, target: Node, lowT: nat)
    requires node in g && k < |g[node]| && g[node][k] == target && target !in s.indices
    requires Scanning(g, s0, s, node, k, low) && Visited(g, s, t, target, lowT)
    ensures Scanning(g, s0, t, node, k + 1, Min(low, lowT))
  {
    hide Reach, Inv, ExitBound, EscapeBound, LowOf, Closed;
    ScanFacts(g, s0, s, node, k, low);
    assert low <= s.index by { LowBelowIndex(g, s, node, low); }
    RecursionLow(g, s, t, node, low, target, lowT);
    RecursionBound(g, s0, s, t, node, k, low, lowT);
  }

  lemma LowBelowIndex(g: Graph, s: Search, node: Node, low: nat)
    requires HasLow(g, s, node, low) && node in s.indices && s.indices[node] < s.index
    ensures low <= s.index
  {
    hide Reach;
  }

  lemma TargetsReachable(g: Graph, s: Search, node: Node, target: Node)
    requires Closed(g) && Edge(g, node, target)
    requires forall x :: x in s.gray ==> Reach(g, x, node)
    ensures target in g && forall x :: x in s.gray ==> Reach(g, x, target)
  {
    ReachEdge(g, node, target);
    hide Reach;
    forall x | x in s.gray ensures Reach(g, x, target) {
      ReachTrans(g, x, node, target);
    }
  }

  /** The new part's edges to the old stack, once every target of `node` is examined. */
  lemma BoundEscapes(g: Graph, s0: Search, s: Search, t: Search, node: Node, low: nat)
    requires node in g && s0.stack <= s.stack && t.indices == s.indices
    requires t.stack == s.stack || t.stack == s0.stack
    requires ExitBound(g, s, |s0.stack|, low, node, |g[node]|)
    ensures EscapeBound(g, s0, t, low)
  {
    assert s.stack[..|s0.stack|] == s0.stack;
    assert g[node][..|g[node]|] == g[node];
  }

  lemma ScanDoneLeave(g: Graph, s0: Search, s: Search, node: Node, low: nat)
    requires node in g && node in s.indices && low != s.indices[node]
    requires Scanning(g, s0, s, node, |g[node]|, low)
    ensures Inv(g, Leave(s, node)) && Extends(s0, Leave(s, node))
    ensures Visited(g, s0, Leave(s, node), node, low)
  {
    hide Reach, Inv, ExitBound, EscapeBound;
    assert s.stack[|s0.stack|] == node;
    var y :| LowOf(g, s, node, low, y);
    LeaveKeeps(g, s, node, low, y);
    assert LowOf(g, Leave(s, node), node, low, y);
    BoundEscapes(g, s0, s, Leave(s, node), node, low);
  }

  lemma RootHolds(g: Graph, s0: Search, s: Search, node: Node)
    requires node in g && During(g, s0, s, node) && forall w :: w in g[node] ==> w in s.indices
    requires ExitBound(g, s, |s0.stack|, s0.index, node, |g[node]|)
    ensures Root(g, s, node, |s0.stack|)
  {
    hide Reach, ExitBound;
    assert s.stack[|s0.stack|] == node;
    assert s.stack[..|s0.stack| + 1] == s0.stack + [node];
  }

  lemma ScanDoneClose(g: Graph, s0: Search, s: Search, node: Node, low: nat)
    requires node in g && node in s.indices && low == s.indices[node] && |s0.stack| < |s.stack|
    requires Scanning(g, s0, s, node, |g[node]|, low)
    ensures Inv(g, Close(s, node, |s0.stack|)) && Extends(s0, Close(s, node, |s0.stack|))
    ensures Visited(g, s0, Close(s, node, |s0.stack|), node, low)
  {
    hide Reach, Inv, ExitBound, EscapeBound, LowOf, Root, Sort, Reversed;
    var t := Close(s, node, |s0.stack|);
    RootHolds(g, s0, s, node);
    CloseKeeps(g, s, node, |s0.stack|);
    assert t.stack == s0.stack;
    BoundEscapes(g, s0, s, t, node, low);
  }

  lemma ScanFacts(g: Graph, s0: Search, s: Search, node: Node, k: nat, low: nat)
    requires Scanning(g, s0, s, node, k, low)
    ensures Inv(g, s) && node in g && node in s.indices && s.indices[node] == s0.index
    ensures s.gray == s0.gray + {node} && node !in s0.indices && node !in s0.gray && s0.stack + [node] <= s.stack
    ensures Closed(g) && forall x :: x in s.gray ==> Reach(g, x, node)
    ensures forall v :: v in s.stack ==> v in s.indices
  {
    hide ExitBound, HasLow, Reach, Linked, Anchored, Settled, Ordered, Explored;
  }

  lemma PopDistinct(g: Graph, s: Search)
    requires Inv(g, s)
    ensures forall i, j :: 0 <= i < j < |s.stack| ==> s.stack[i] != s.stack[j]
  {
    hide Reach, Linked, Anchored, Settled, Explored, Scoped;
  }

  /** Popping one node more extends the popped part by one. */
  lemma PopOne(full: seq<Node>, m: nat)
    requires m < |full|
    ensures Reversed(full[m..]) == Reversed(full[m + 1..]) + [full[m]]
    ensures full[..m + 1][..m] == full[..m]
  {
    assert full[m..][1..] == full[m + 1..];
  }

  ghost function Elements(s: seq<Node>): set<Node> { set v | v in s }

  // ----- the result

  /** The tuple of components the audit returns: every mutual-reachability class once, each class and
      the whole result in Python's order. */
  ghost predicate IsPartition(g: Graph, r: seq<seq<Node>>) {
    && (forall c :: c in r ==> IsComponent(g, c) && Sorted(c, StringLe))
    && (forall v :: v in g ==> exists c :: c in r && v in c)
    && (forall i, j :: 0 <= i < j < |r| ==> r[i] != r[j])
    && Sorted(r, TupleLe)
  }

  /** The nested function of `strongly_connected_components` with the variables it closes over. */
  class TarjanSearch {
    const graph: Graph
    var index: nat
    var indices: map<Node, nat>
    var lowlinks: map<Node, nat>
    var stack: seq<Node>
    var onStack: set<Node>
    var components: seq<seq<Node>>
    ghost var gray: set<Node>

    ghost function View(): Search
      reads this
    {
      Search(index, indices, stack, gray, components)
    }

    ghost predicate Valid()
      reads this
    {
      Inv(graph, View()) && onStack == Elements(stack) && lowlinks.Keys == indices.Keys
    }

    constructor (graph: Graph)
      requires Closed(graph)
      ensures Valid() && this.graph == graph && gray == {} && indices == map[]
    {
      this.graph := graph;
      index, indices, lowlinks, stack, onStack, components, gray := 0, map[], map[], [], {}, [], {};
    }

    /** The `while True` loop that pops the component of `node`. */
    method PopComponent(node: Node, ghost base: nat) returns (component: seq<Node>)
      requires base < |stack| && stack[base] == node && onStack == Elements(stack)
      requires forall i, j :: 0 <= i < j < |stack| ==> stack[i] != stack[j]
      modifies `stack, `onStack
      ensures stack == old(stack)[..base] && onStack == Elements(stack)
      ensures component == Reversed(old(stack)[base..])
    {
      component := [];
      assert stack[|stack|..] == [];
      while true
        invariant base < |stack| <= |old(stack)| && stack == old(stack)[..|stack|]
        invariant component == Reversed(old(stack)[|stack|..])
        invariant onStack == Elements(stack)
        decreases |stack|
      {
        var member := stack[|stack| - 1];
        PopOne(old(stack), |stack| - 1);
        assert stack == stack[..|stack| - 1] + [member];
        stack := stack[..|stack| - 1];
        onStack := onStack - {member};
        component := component + [member];
        if member == node {
          break;
        }
      }
    }

    /** The end of a visit: leave `node` on the stack, or pop and record its component. */
    method Finish(node: Node, ghost s0: Search)
      requires node in graph && node in indices && node in lowlinks && onStack == Elements(stack)
      requires Scanning(graph, s0, View(), node, |graph[node]|, lowlinks[node])
      modifies `stack, `onStack, `components, `gray
      ensures Inv(graph, View()) && onStack == Elements(stack) && Extends(s0, View())
      ensures Visited(graph, s0, View(), node, lowlinks[node])
    {
      hide Reach, Closed, Sort, Scanning, Visited, Inv, Elements;
      ghost var s := View();
      ScanFacts(graph, s0, s, node, |graph[node]|, lowlinks[node]);
      if lowlinks[node] != indices[node] {
        ScanDoneLeave(graph, s0, s, node, lowlinks[node]);
        gray := gray - {node};
        assert View() == Leave(s, node);
        return;
      }
      ScanDoneClose(graph, s0, s, node, lowlinks[node]);
      PopDistinct(graph, s);
      var component := PopComponent(node, |s0.stack|);
      components := components + [Sort(component, StringLe)];
      gray := gray - {node};
      assert View() == Close(s, node, |s0.stack|);
    }

    /** One round of the loop over the targets of `node`. */
    method Examine(node: Node, k: nat, ghost s0: Search)
      requires Valid() && node in graph && node in lowlinks && k < |graph[node]|
      requires Scanning(graph, s0, View(), node, k, lowlinks[node])
      modifies this
      ensures Valid() && old(indices).Keys <= indices.Keys && node in lowlinks
      ensures Scanning(graph, s0, View(), node, k + 1, lowlinks[node])
      ensures forall v :: v in old(lowlinks) && v != node ==> v in lowlinks && lowlinks[v] == old(lowlinks)[v]
      decreases graph.Keys - indices.Keys, 1
    {
      hide Reach, Closed, Scanning, Visited, Inv;
      var target := graph[node][k];
      ghost var s, low := View(), lowlinks[node];
      ScanFacts(graph, s0, s, node, k, low);
      if target !in indices {
        TargetsReachable(graph, s, node, target);
        Visit(target);
        ScanVisited(graph, s0, s, View(), node, k, low, target, lowlinks[target]);
        lowlinks := lowlinks[node := Min(lowlinks[node], lowlinks[target])];
      } else if target in onStack {
        ScanStacked(graph, s0, s, node, k, low, target);
        lowlinks := lowlinks[node := Min(lowlinks[node], indices[target])];
      } else {
        ScanAssigned(graph, s0, s, node, k, low, target);
      }
      ghost var t := View();
      ScanFacts(graph, s0, t, node, k + 1, lowlinks[node]);
    }

    method Visit(node: Node)
      requires Valid() && node in graph && node !in indices
      requires forall x :: x in gray ==> Reach(graph, x, node)
      modifies this
      ensures Valid() && node in lowlinks
      ensures Visited(graph, old(View()), View(), node, lowlinks[node])
      ensures node in indices && Extends(old(View()), View())
      ensures forall v :: v in old(lowlinks) ==> v in lowlinks && lowlinks[v] == old(lowlinks)[v]
      decreases graph.Keys - indices.Keys, 0
    {
      hide Reach, Closed, Sort, Scanning, Visited, Inv;
      ghost var s0 := View();
      ScanStart(graph, s0, node);
      indices := indices[node := index];
      lowlinks := lowlinks[node := index];
      index := index + 1;
      stack := stack + [node];
      onStack := onStack + {node};
      gray := gray + {node};
      var k := 0;
      while k < |graph[node]|
        invariant k <= |graph[node]|
        invariant node in lowlinks && Scanning(graph, s0, View(), node, k, lowlinks[node])
        invariant Valid()
        invariant forall v :: v in old(lowlinks) ==> v in lowlinks && lowlinks[v] == old(lowlinks)[v]
        invariant node !in old(indices) && old(indices).Keys < indices.Keys
        decreases |graph[node]| - k
      {
        Examine(node, k, s0);
        k := k + 1;
      }
      Finish(node, s0);
    }
  }

  function Min(a: nat, b: nat): nat { if a <= b then a else b }

  /** With no visit under way and every node discovered, all nodes are assigned. */
  lemma SearchComplete(g: Graph, s: Search)
    requires Inv(g, s) && s.gray == {} && forall v :: v in g ==> v in s.indices
    ensures IsPartition(g, Sort(s.components, TupleLe))
  {
    hide IsComponent, Linked, Ordered, Explored, Anchored, Sort, Sorted, TupleLe, StringLe;
    var r := Sort(s.components, TupleLe);
    NothingStacked(g, s);
    SortedTuples(s.components);
    forall v | v in g ensures exists c :: c in r && v in c {
      assert Assigned(s, v);
      var c :| c in s.components && v in c;
      assert c in r;
    }
  }

  lemma SortedTuples(components: seq<seq<Node>>)
    requires forall i, j :: 0 <= i < j < |components| ==> components[i] != components[j]
    ensures var r := Sort(components, TupleLe);
      && (forall c :: c in r <==> c in components)
      && (forall i, j :: 0 <= i < j < |r| ==> r[i] != r[j])
      && Sorted(r, TupleLe)
  {
    hide Sort, Sorted, TupleLe;
    SortMembers(components, TupleLe);
    SortPermutes(components, TupleLe);
    TuplePreorder(components);
    SortSorts(components, TupleLe);
    DistinctIffCounts(components);
    DistinctIffCounts(Sort(components, TupleLe));
  }

  lemma NothingStacked(g: Graph, s: Search)
    requires Anchored(g, s) && s.gray == {}
    ensures forall v :: v !in s.stack
  {
    hide Reach;
  }

  /** `for node in graph: if node not in indices: visit(node)`; `order` is the order of the dictionary. */
  method StronglyConnectedComponents(g: Graph, order: seq<Node>) returns (r: seq<seq<Node>>)
    requires Closed(g) && forall v :: v in g <==> v in order
    ensures IsPartition(g, r)
  {
    hide Inv, Visited, Reach, Closed, Sort;
    var search := new TarjanSearch(g);
    for i := 0 to |order|
      invariant search.Valid() && search.graph == g && search.gray == {} && fresh(search)
      invariant forall j :: 0 <= j < i ==> order[j] in search.indices
    {
      if order[i] !in search.indices {
        search.Visit(order[i]);
      }
    }
    SearchComplete(g, search.View());
    r := Sort(search.components, TupleLe);
  }

  // ----- the result depends on the edges only

  lemma SameWalks(g: Graph, h: Graph)
    requires g.Keys == h.Keys && forall u, v :: Edge(g, u, v) <==> Edge(h, u, v)
    ensures forall u, v :: Reach(g, u, v) <==> Reach(h, u, v)
  {
    assert forall p :: Walk(g, p) <==> Walk(h, p);
    assert forall p, u, v :: WalkBetween(g, p, u, v) <==> WalkBetween(h, p, u, v);
  }

  lemma DistinctSameElements<T>(c: seq<T>, d: seq<T>)
    requires forall i, j :: 0 <= i < j < |c| ==> c[i] != c[j]
    requires forall i, j :: 0 <= i < j < |d| ==> d[i] != d[j]
    requires forall x :: x in c <==> x in d
    ensures multiset(c) == multiset(d)
  {
    DistinctIffCounts(c);
    DistinctIffCounts(d);
    forall x ensures multiset(c)[x] == multiset(d)[x] {
      assert x in c <==> x in multiset(c);
      assert x in d <==> x in multiset(d);
    }
  }

  lemma ComponentUnique(g: Graph, u: Node, c: seq<Node>, d: seq<Node>)
    requires IsComponent(g, c) && IsComponent(g, d) && u in c && u in d
    requires Sorted(c, StringLe) && Sorted(d, StringLe)
    ensures c == d
  {
    hide Reach;
    assert forall v :: v in c <==> v in d;
    DistinctSameElements(c, d);
    StringPreorder(c);
    SortedUnique(c, d, StringLe);
  }

  lemma PartitionIncluded(g: Graph, r: seq<seq<Node>>, r': seq<seq<Node>>, c: seq<Node>)
    requires IsPartition(g, r) && IsPartition(g, r') && c in r
    ensures c in r'
  {
    assert c[0] in c && c[0] in g;
    var d :| d in r' && c[0] in d;
    ComponentUnique(g, c[0], c, d);
  }

  lemma PartitionTransfers(g: Graph, h: Graph, r: seq<seq<Node>>)
    requires g.Keys == h.Keys && forall u, v :: Edge(g, u, v) <==> Edge(h, u, v)
    requires IsPartition(h, r)
    ensures IsPartition(g, r)
  {
    hide IsComponent, Reach, Sorted, TupleLe, StringLe;
    forall c | c in r ensures IsComponent(g, c) { ComponentTransfers(g, h, c); }
    assert forall v :: v in g ==> v in h.Keys;
  }

  lemma ComponentTransfers(g: Graph, h: Graph, c: seq<Node>)
    requires g.Keys == h.Keys && forall u, v :: Edge(g, u, v) <==> Edge(h, u, v)
    requires IsComponent(h, c)
    ensures IsComponent(g, c)
  {
    hide Reach, Edge;
    SameWalks(g, h);
    assert forall v :: v in g <==> v in g.Keys;
    assert forall v :: v in h <==> v in h.Keys;
  }

  /** Any order of the nodes and of each node's targets gives the same tuple of tuples. */
  lemma ResultDeterminedByEdges(g: Graph, h: Graph, r: seq<seq<Node>>, r': seq<seq<Node>>)
    requires g.Keys == h.Keys && forall u, v :: Edge(g, u, v) <==> Edge(h, u, v)
    requires IsPartition(g, r) && IsPartition(h, r')
    ensures r == r'
  {
    PartitionTransfers(g, h, r');
    hide Reach, Sorted, IsComponent;
    forall c ensures c in r <==> c in r' {
      if c in r { PartitionIncluded(g, r, r', c); }
      if c in r' { PartitionIncluded(g, r', r, c); }
    }
    DistinctSameElements(r, r');
    TuplePreorder(r);
    SortedUnique(r, r', TupleLe);
  }

  /** Two nodes share a component of the result exactly when each reaches the other. */
  lemma TogetherIffMutual(g: Graph, r: seq<seq<Node>>, u: Node, v: Node)
    requires IsPartition(g, r) && u in g && v in g
    ensures (exists c :: c in r && u in c && v in c) <==> Mutual(g, u, v)
    ensures forall c, d :: c in r && d in r && u in c && u in d ==> c == d
  {
    hide Reach, Sorted;
    var c :| c in r && u in c;
    forall d, e | d in r && e in r && u in d && u in e ensures d == e {
      ComponentUnique(g, u, d, e);
    }
  }
}
