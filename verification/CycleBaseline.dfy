/** The dependency-cycle gate of scripts/ci/package_dependency_audit.py on top of the components. */
module CycleBaseline {
  import opened Graphs
  import opened Sorting
  import opened StrongComponents

  const PLATFORM_PREFIX := "ai_multi_agent_platform."

  function CyclicComponents(r: seq<seq<Node>>): seq<seq<Node>> {
    if r == [] then []
    else (if |r[0]| > 1 then [r[0]] else []) + CyclicComponents(r[1..])
  }

  predicate Inside(nodes: seq<Node>, entry: set<Node>) {
    forall v :: v in nodes ==> v in entry
  }

  predicate Allowed(cycle: seq<Node>, baseline: seq<set<Node>>) {
    exists b :: b in baseline && Inside(cycle, b)
  }

  function UnexpectedCycles(cycles: seq<seq<Node>>, baseline: seq<set<Node>>): seq<seq<Node>> {
    if cycles == [] then []
    else (if Allowed(cycles[0], baseline) then [] else [cycles[0]]) + UnexpectedCycles(cycles[1..], baseline)
  }

  lemma {:induction false} CyclicMembers(r: seq<seq<Node>>, c: seq<Node>)
    ensures c in CyclicComponents(r) <==> c in r && |c| > 1
  {
    if r != [] {
      CyclicMembers(r[1..], c);
      assert r == [r[0]] + r[1..];
    }
  }

  lemma {:induction false} UnexpectedMembers(cycles: seq<seq<Node>>, baseline: seq<set<Node>>, c: seq<Node>)
    ensures c in UnexpectedCycles(cycles, baseline) <==> c in cycles && !Allowed(c, baseline)
  {
    if cycles != [] {
      UnexpectedMembers(cycles[1..], baseline, c);
      assert cycles == [cycles[0]] + cycles[1..];
    }
  }

  /** A walk along at least one edge back to its start. */
  ghost predicate ClosedWalk(g: Graph, p: seq<Node>) {
    Walk(g, p) && |p| > 1 && p[0] == p[|p| - 1]
  }

  /** A closed walk through at least two nodes. */
  ghost predicate Cycle(g: Graph, p: seq<Node>) {
    ClosedWalk(g, p) && exists i :: 0 <= i < |p| && p[i] != p[0]
  }

  lemma ClosedWalkMutual(g: Graph, p: seq<Node>, i: nat)
    requires ClosedWalk(g, p) && i < |p|
    ensures Mutual(g, p[0], p[i])
  {
    assert WalkBetween(g, p[..i + 1], p[0], p[i]);
    assert WalkBetween(g, p[i..], p[i], p[0]);
  }

  /** A cycle lies inside one cyclic component. */
  lemma CycleInComponent(g: Graph, r: seq<seq<Node>>, p: seq<Node>) returns (c: seq<Node>)
    requires IsPartition(g, r) && Cycle(g, p)
    ensures c in r && |c| > 1 && forall v :: v in p ==> v in c
  {
    c :| c in r && p[0] in c;
    forall i | 0 <= i < |p| ensures p[i] in c {
      ClosedWalkMutual(g, p, i);
      assert IsComponent(g, c);
    }
    var i :| 0 <= i < |p| && p[i] != p[0];
    assert p[i] in c && p[0] in c;
    var a :| 0 <= a < |c| && c[a] == p[i];
    var b :| 0 <= b < |c| && c[b] == p[0];
    assert a != b;
  }

  /** A closed walk from `u` through every node of a list of nodes mutually reachable with it. */
  lemma {:induction false} Tour(g: Graph, u: Node, c: seq<Node>) returns (p: seq<Node>)
    requires u in g && forall v :: v in c ==> Mutual(g, u, v)
    ensures WalkBetween(g, p, u, u) && forall v :: v in c ==> v in p
  {
    if c == [] {
      p := [u];
    } else {
      var q := Tour(g, u, c[1..]);
      assert Mutual(g, u, c[0]);
      var there :| WalkBetween(g, there, u, c[0]);
      var back :| WalkBetween(g, back, c[0], u);
      var round := Joined(g, there, back, u, c[0], u);
      p := Joined(g, round, q, u, u, u);
      assert c == [c[0]] + c[1..];
    }
  }

  lemma Joined(g: Graph, p: seq<Node>, q: seq<Node>, u: Node, v: Node, w: Node) returns (r: seq<Node>)
    requires WalkBetween(g, p, u, v) && WalkBetween(g, q, v, w)
    ensures WalkBetween(g, r, u, w) && forall x :: x in p || x in q ==> x in r
  {
    r := p + q[1..];
    forall i | 0 < i < |r| ensures Edge(g, r[i - 1], r[i]) {
      if i >= |p| {
        assert r[i] == q[i - |p| + 1];
        assert r[i - 1] == q[i - |p|];
      }
    }
    assert q == [q[0]] + q[1..];
    assert p[|p| - 1] == q[0];
  }

  lemma ComponentTour(g: Graph, c: seq<Node>) returns (p: seq<Node>)
    requires IsComponent(g, c) && |c| > 1
    ensures Cycle(g, p) && forall v :: v in c ==> v in p
  {
    forall v | v in c ensures Mutual(g, c[0], v) { assert c[0] in c; }
    assert c[0] in c;
    p := Tour(g, c[0], c);
    assert c[1] in c && c[0] != c[1];
    var i :| 0 <= i < |p| && p[i] == c[1];
  }

  lemma AllowedSubset(more: seq<Node>, fewer: seq<Node>, baseline: seq<set<Node>>)
    requires forall v :: v in fewer ==> v in more
    ensures Allowed(more, baseline) ==> Allowed(fewer, baseline)
  {
    if Allowed(more, baseline) {
      var b :| b in baseline && Inside(more, b);
      assert Inside(fewer, b);
    }
  }

  /** The gate is silent exactly when every cycle of the graph lies inside one baseline entry. */
  lemma SilentIffCyclesAllowed(g: Graph, r: seq<seq<Node>>, baseline: seq<set<Node>>)
    requires IsPartition(g, r)
    ensures UnexpectedCycles(CyclicComponents(r), baseline) == []
       <==> forall p :: Cycle(g, p) ==> Allowed(p, baseline)
  {
    var unexpected := UnexpectedCycles(CyclicComponents(r), baseline);
    if unexpected == [] {
      forall p | Cycle(g, p) ensures Allowed(p, baseline) {
        var c := CycleInComponent(g, r, p);
        CyclicMembers(r, c);
        UnexpectedMembers(CyclicComponents(r), baseline, c);
        AllowedSubset(c, p, baseline);
      }
    } else {
      var c := unexpected[0];
      UnexpectedMembers(CyclicComponents(r), baseline, c);
      CyclicMembers(r, c);
      var p := ComponentTour(g, c);
      AllowedSubset(p, c, baseline);
      assert Cycle(g, p) && !Allowed(p, baseline);
    }
  }

  ghost predicate NoSelfEdges(g: Graph) {
    forall u :: !Edge(g, u, u)
  }

  lemma {:induction false} ClosedWalkIsCycle(g: Graph, p: seq<Node>)
    requires NoSelfEdges(g) && ClosedWalk(g, p)
    ensures Cycle(g, p)
  {
    assert Edge(g, p[1 - 1], p[1]);
    assert p[1] != p[0];
  }

  /** On a graph without self-edges there is a cyclic component exactly when there is a closed walk. */
  lemma CyclicIffClosedWalk(g: Graph, r: seq<seq<Node>>)
    requires IsPartition(g, r) && NoSelfEdges(g)
    ensures CyclicComponents(r) == [] <==> forall p :: !ClosedWalk(g, p)
  {
    if CyclicComponents(r) == [] {
      forall p ensures !ClosedWalk(g, p) {
        if ClosedWalk(g, p) {
          ClosedWalkIsCycle(g, p);
          var c := CycleInComponent(g, r, p);
          CyclicMembers(r, c);
        }
      }
    } else {
      var c := CyclicComponents(r)[0];
      CyclicMembers(r, c);
      var p := ComponentTour(g, c);
      assert ClosedWalk(g, p);
    }
  }

  // ----- the graph

  /** The text `name` is the dotted path `first` or lies below it. */
  predicate UnderPath(first: string, name: string) {
    first <= name && '.' !in first && (name == first || name[|first|] == '.')
  }

  /** `_target_top_level`: the package whose name is the whole first component after the platform prefix,
      if there is one. */
  function TargetTopLevel(candidate: string, packages: set<Node>): (target: seq<Node>)
    ensures |target| <= 1
    ensures forall t :: t in target <==>
      t in packages && PLATFORM_PREFIX <= candidate && UnderPath(t, candidate[|PLATFORM_PREFIX|..])
  {
    if PLATFORM_PREFIX <= candidate then
      var name := candidate[|PLATFORM_PREFIX|..];
      var t := BeforeDot(name);
      assert forall u :: UnderPath(u, name) ==> u == t by { FirstComponentUnique(name, t); }
      if t in packages then [t] else []
    else []
  }

  lemma FirstComponentUnique(name: string, t: string)
    requires UnderPath(t, name)
    ensures forall u :: UnderPath(u, name) ==> u == t
  {
    forall u | UnderPath(u, name) ensures u == t {
      assert forall i :: 0 <= i < |u| ==> u[i] == name[i] && name[i] != '.';
      assert forall i :: 0 <= i < |t| ==> t[i] == name[i] && name[i] != '.';
      assert |u| == |t|;
    }
  }

  function BeforeDot(s: string): (r: string)
    ensures UnderPath(r, s)
  {
    if s == [] || s[0] == '.' then [] else [s[0]] + BeforeDot(s[1..])
  }

  /** Some import candidate among `candidates`, found in package `u`, points at package `v`. */
  ghost predicate Imports(candidates: seq<string>, packages: set<Node>, u: Node, v: Node) {
    u != v && exists c :: c in candidates && v in TargetTopLevel(c, packages)
  }

  /** `dependency_graph`: one node per package, the platform packages other than itself that it imports. */
  method DependencyGraph(names: seq<Node>, imports: map<Node, seq<string>>) returns (g: Graph)
    requires forall v :: v in names ==> v in imports
    ensures (forall v :: v in g <==> v in names) && Closed(g) && NoSelfEdges(g)
    ensures forall u, v :: u in names ==>
      (Edge(g, u, v) <==> Imports(imports[u], (set n | n in names), u, v))
    ensures forall u :: u in g ==> SortedDistinct(g[u])
  {
    var packages := set n | n in names;
    g := map[];
    for i := 0 to |names|
      invariant forall v :: v in g <==> v in names[..i]
      invariant forall u :: u in g ==> SortedDistinct(g[u])
      invariant forall u, v :: u in names[..i] ==>
        (Edge(g, u, v) <==> Imports(imports[u], packages, u, v))
    {
      var source := names[i];
      var targets := {};
      for k := 0 to |imports[source]|
        invariant forall v :: v in targets <==> Imports(imports[source][..k], packages, source, v)
      {
        var target := TargetTopLevel(imports[source][k], packages);
        if target != [] && target[0] != source {
          targets := targets + {target[0]};
        }
        ImportsOneMore(imports[source], k, packages, source);
      }
      var sorted := SortedSet(targets);
      g := g[source := sorted];
      assert imports[source][..|imports[source]|] == imports[source];
      assert names[..i + 1] == names[..i] + [names[i]];
    }
    assert names[..|names|] == names;
  }

  lemma ImportsOneMore(candidates: seq<string>, k: nat, packages: set<Node>, u: Node)
    requires k < |candidates|
    ensures forall v :: Imports(candidates[..k + 1], packages, u, v) <==>
      Imports(candidates[..k], packages, u, v) || (u != v && v in TargetTopLevel(candidates[k], packages))
  {
    assert candidates[..k + 1] == candidates[..k] + [candidates[k]];
  }

  /** `tuple(sorted(targets))` */
  method SortedSet(s: set<Node>) returns (r: seq<Node>)
    ensures (forall v :: v in r <==> v in s) && |r| == |s|
    ensures SortedDistinct(r)
  {
    hide Sort, Sorted, StringLe;
    var rest := s;
    r := [];
    while rest != {}
      invariant rest <= s && (forall v :: v in r <==> v in s - rest) && |r| + |rest| == |s|
      invariant forall i, j :: 0 <= i < j < |r| ==> r[i] != r[j]
    {
      var v :| v in rest;
      rest := rest - {v};
      r := r + [v];
    }
    SortMembers(r, StringLe);
    SortPermutes(r, StringLe);
    StringPreorder(r);
    SortSorts(r, StringLe);
    DistinctIffCounts(r);
    DistinctIffCounts(Sort(r, StringLe));
    r := Sort(r, StringLe);
  }

  /** In Python's order, without duplicates. */
  ghost predicate SortedDistinct(r: seq<Node>) {
    Sorted(r, StringLe) && forall i, j :: 0 <= i < j < |r| ==> r[i] != r[j]
  }

  /** The exit code of the audit for parsed sources and a parsed baseline file (`main` with `--baseline`);
      `g` is the graph the imports determine. */
  method Audit(names: seq<Node>, imports: map<Node, seq<string>>, enforce: bool, baseline: seq<set<Node>>)
    returns (code: int, ghost g: Graph)
    requires forall v :: v in names ==> v in imports
    ensures (forall v :: v in g <==> v in names) && Closed(g) && NoSelfEdges(g)
    ensures forall u, v :: u in names ==>
      (Edge(g, u, v) <==> Imports(imports[u], (set n | n in names), u, v))
    ensures code == 0 || code == 1
    ensures code == 1 <==> enforce && exists p :: Cycle(g, p) && !Allowed(p, baseline)
  {
    var graph := DependencyGraph(names, imports);
    var components := StronglyConnectedComponents(graph, names);
    SilentIffCyclesAllowed(graph, components, baseline);
    g := graph;
    if !enforce {
      return 0, g;
    }
    var unexpected := UnexpectedCycles(CyclicComponents(components), baseline);
    code := if unexpected == [] then 0 else 1;
  }
}
