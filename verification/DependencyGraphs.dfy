/**
  Dependency graphs as values: the pending edges of a builder, the graph it freezes, and the
  vocabulary of paths, cycles, topological orders and longest-path depth.
*/
module DependencyGraphs {
  import opened Sets

  /** `node` must run after `dependency`. */
  datatype Edge = Edge(node: nat, dependency: nat)

  datatype Node<W> = Node(name: string, work: W, successors: seq<nat>, dependencies: seq<nat>)

  datatype DependencyGraph<W> = DependencyGraph(nodes: seq<Node<W>>, order: seq<nat>)

  ghost predicate InRange(edges: seq<Edge>, count: nat) {
    forall i :: 0 <= i < |edges| ==> edges[i].node < count && edges[i].dependency < count
  }

  /** The dependencies declared for a node, in declaration order and with repeats. */
  function Dependencies(edges: seq<Edge>, v: nat): seq<nat> {
    if edges == [] then []
    else
      var e := edges[|edges| - 1];
      Dependencies(edges[..|edges| - 1], v) + if e.node == v then [e.dependency] else []
  }

  /** The nodes that declared v as a dependency, once per declaration. */
  function Successors(edges: seq<Edge>, v: nat): seq<nat> {
    if edges == [] then []
    else
      var e := edges[|edges| - 1];
      Successors(edges[..|edges| - 1], v) + if e.dependency == v then [e.node] else []
  }

  /** Exactly the edges out of v, in the order in which they were added. */
  lemma {:induction false} DependenciesInOrder(edges: seq<Edge>, v: nat) returns (at: seq<nat>)
    ensures Rising(at, |edges|) && |at| == |Dependencies(edges, v)|
    ensures forall k :: 0 <= k < |at| ==> edges[at[k]] == Edge(v, Dependencies(edges, v)[k])
    ensures forall i :: 0 <= i < |edges| && edges[i].node == v ==> i in at
  {
    at := [];
    if edges != [] {
      var n := |edges| - 1;
      var before := DependenciesInOrder(edges[..n], v);
      RisingNext(before, n);
      at := if edges[n].node == v then before + [n] else before;
      forall i | 0 <= i < |edges| && edges[i].node == v
        ensures i in at
      {
        if i < n {
          assert edges[..n][i] == edges[i];
        }
      }
    }
  }

  /** Exactly the edges into v, in the order in which they were added. */
  lemma {:induction false} SuccessorsInOrder(edges: seq<Edge>, v: nat) returns (at: seq<nat>)
    ensures Rising(at, |edges|) && |at| == |Successors(edges, v)|
    ensures forall k :: 0 <= k < |at| ==> edges[at[k]] == Edge(Successors(edges, v)[k], v)
    ensures forall i :: 0 <= i < |edges| && edges[i].dependency == v ==> i in at
  {
    at := [];
    if edges != [] {
      var n := |edges| - 1;
      var before := SuccessorsInOrder(edges[..n], v);
      RisingNext(before, n);
      at := if edges[n].dependency == v then before + [n] else before;
      forall i | 0 <= i < |edges| && edges[i].dependency == v
        ensures i in at
      {
        if i < n {
          assert edges[..n][i] == edges[i];
        }
      }
    }
  }

  lemma {:induction false} DependenciesAre(edges: seq<Edge>, v: nat, d: nat)
    ensures d in Dependencies(edges, v) <==> Edge(v, d) in edges
  {
    if edges != [] {
      DependenciesAre(edges[..|edges| - 1], v, d);
      assert edges == edges[..|edges| - 1] + [edges[|edges| - 1]];
    }
  }

  /** Both views of the edges agree on multiplicities. */
  lemma {:induction false} Transposed(edges: seq<Edge>, v: nat, d: nat)
    ensures multiset(Dependencies(edges, v))[d] == multiset(Successors(edges, d))[v]
  {
    if edges != [] {
      Transposed(edges[..|edges| - 1], v, d);
    }
  }

  // ----- Paths and cycles -----

  ghost predicate Linked(edges: seq<Edge>, p: seq<nat>, i: nat)
    requires i < |p| - 1
  {
    Edge(p[i], p[i + 1]) in edges
  }

  /** Each node of the path depends on the next one. */
  ghost predicate Path(edges: seq<Edge>, p: seq<nat>) {
    |p| >= 1 && forall i :: 0 <= i < |p| - 1 ==> Linked(edges, p, i)
  }

  lemma PathCons(edges: seq<Edge>, v: nat, q: seq<nat>)
    requires Path(edges, q) && Edge(v, q[0]) in edges
    ensures Path(edges, [v] + q)
  {
    var p := [v] + q;
    forall i | 0 <= i < |p| - 1
      ensures Linked(edges, p, i)
    {
      if i > 0 {
        assert Linked(edges, q, i - 1);
      }
    }
  }

  ghost predicate Cycle(edges: seq<Edge>, p: seq<nat>) {
    |p| >= 2 && Path(edges, p) && p[0] == p[|p| - 1]
  }

  // ----- Topological orders -----

  ghost predicate Distinct(s: seq<nat>) {
    forall i, j :: 0 <= i < j < |s| ==> s[i] != s[j]
  }

  ghost predicate Below(s: seq<nat>, n: nat) {
    forall i :: 0 <= i < |s| ==> s[i] < n
  }

  ghost function Elements(s: seq<nat>): set<nat> {
    set i | 0 <= i < |s| :: s[i]
  }

  ghost function UpTo(n: nat): (s: set<nat>)
    ensures forall i :: i in s <==> 0 <= i < n
  {
    if n == 0 then {} else UpTo(n - 1) + {n - 1}
  }

  lemma {:induction false} UpToSize(n: nat)
    ensures |UpTo(n)| == n
  {
    if n > 0 {
      UpToSize(n - 1);
    }
  }

  lemma {:induction false} DistinctSize(s: seq<nat>)
    requires Distinct(s)
    ensures |Elements(s)| == |s|
  {
    if s != [] {
      var t := s[..|s| - 1];
      DistinctSize(t);
      assert Elements(s) == Elements(t) + {s[|s| - 1]};
      assert s[|s| - 1] !in Elements(t);
    }
  }

  /** Distinct numbers below n are at most n, and exactly n of them are all of them. */
  lemma DistinctBelow(s: seq<nat>, n: nat)
    requires Distinct(s) && Below(s, n)
    ensures |s| <= n
    ensures |s| == n ==> forall v :: 0 <= v < n ==> v in s
  {
    DistinctSize(s);
    UpToSize(n);
    assert Elements(s) <= UpTo(n);
    SubsetSize(Elements(s), UpTo(n));
    if |s| == n {
      forall v | 0 <= v < n
        ensures v in s
      {
        assert v in UpTo(n);
      }
    }
  }

  /** Every dependency of a listed node is listed before it. */
  ghost predicate DependenciesFirst(deps: seq<seq<nat>>, order: seq<nat>) {
    forall i :: 0 <= i < |order| ==> order[i] < |deps| && forall d :: d in deps[order[i]] ==> d in order[..i]
  }

  /** A permutation of all nodes in which every dependency comes first. */
  ghost predicate Topological(deps: seq<seq<nat>>, order: seq<nat>) {
    && |order| == |deps| && Distinct(order) && Below(order, |deps|)
    && (forall v :: 0 <= v < |deps| ==> v in order)
    && DependenciesFirst(deps, order)
  }

  ghost function Position(order: seq<nat>, v: nat): (i: nat)
    requires v in order
    ensures i < |order| && order[i] == v
  {
    var i :| 0 <= i < |order| && order[i] == v;
    i
  }

  lemma DependencyEarlier(deps: seq<seq<nat>>, order: seq<nat>, v: nat, d: nat)
    requires Topological(deps, order) && v < |deps| && d in deps[v]
    ensures d in order && v in order && Position(order, d) < Position(order, v)
  {
    var i := Position(order, v);
    assert d in deps[order[i]];
    var j :| 0 <= j < |order[..i]| && order[..i][j] == d;
    assert order[j] == d;
    assert Position(order, d) == j;
  }

  lemma {:induction false} PathDescends(edges: seq<Edge>, deps: seq<seq<nat>>, order: seq<nat>, p: seq<nat>, k: nat)
    requires Topological(deps, order) && InRange(edges, |deps|)
    requires forall v :: 0 <= v < |deps| ==> deps[v] == Dependencies(edges, v)
    requires Path(edges, p) && 1 <= k < |p|
    ensures p[0] in order && p[k] in order && Position(order, p[k]) < Position(order, p[0])
  {
    assert Linked(edges, p, k - 1);
    DependenciesAre(edges, p[k - 1], p[k]);
    DependencyEarlier(deps, order, p[k - 1], p[k]);
    if k > 1 {
      PathDescends(edges, deps, order, p, k - 1);
    }
  }

  /** A topological order rules out every cycle, self-loops included. */
  lemma OrderedIsAcyclic(edges: seq<Edge>, deps: seq<seq<nat>>, order: seq<nat>, p: seq<nat>)
    requires Topological(deps, order) && InRange(edges, |deps|)
    requires forall v :: 0 <= v < |deps| ==> deps[v] == Dependencies(edges, v)
    ensures !Cycle(edges, p)
  {
    if Cycle(edges, p) {
      PathDescends(edges, deps, order, p, |p| - 1);
    }
  }

  // ----- A set of nodes that each depend on another of the set contains a cycle -----

  ghost predicate DependsInto(edges: seq<Edge>, u: set<nat>, v: nat) {
    exists d :: d in u && Edge(v, d) in edges
  }

  ghost predicate Stuck(edges: seq<Edge>, u: set<nat>) {
    forall v {:trigger DependsInto(edges, u, v)} :: v in u ==> DependsInto(edges, u, v)
  }

  lemma {:induction false} Walk(edges: seq<Edge>, u: set<nat>, v: nat, len: nat) returns (p: seq<nat>)
    requires Stuck(edges, u) && v in u && len >= 1
    ensures |p| == len && p[0] == v && Path(edges, p) && forall i :: 0 <= i < |p| ==> p[i] in u
    decreases len
  {
    p := [v];
    if len > 1 {
      assert DependsInto(edges, u, v);
      var d :| d in u && Edge(v, d) in edges;
      var q := Walk(edges, u, d, len - 1);
      PathCons(edges, v, q);
      p := [v] + q;
    }
  }

  lemma Segment(edges: seq<Edge>, p: seq<nat>, i: nat, j: nat)
    requires Path(edges, p) && i < j < |p| && p[i] == p[j]
    ensures Cycle(edges, p[i..j + 1])
  {
    var c := p[i..j + 1];
    forall k | 0 <= k < |c| - 1
      ensures Linked(edges, c, k)
    {
      assert Linked(edges, p, i + k);
    }
  }

  lemma StuckHasCycle(edges: seq<Edge>, u: set<nat>, v: nat, n: nat) returns (c: seq<nat>)
    requires Stuck(edges, u) && v in u && forall x :: x in u ==> x < n
    ensures Cycle(edges, c)
  {
    var p := Walk(edges, u, v, n + 1);
    if Distinct(p) {
      DistinctBelow(p, n);
    }
    var i, j :| 0 <= i < j < |p| && p[i] == p[j];
    Segment(edges, p, i, j);
    c := p[i..j + 1];
  }

  // ----- Longest-path depth -----

  /** One more than the greatest depth of these nodes, or 0 if there are none. */
  function DepthAfter(ds: seq<nat>, depth: seq<nat>): nat
    requires Below(ds, |depth|)
  {
    if ds == [] then 0
    else
      var rest := DepthAfter(ds[..|ds| - 1], depth);
      var last := depth[ds[|ds| - 1]] + 1;
      if rest < last then last else rest
  }

  /** The equations of longest-path depth. */
  ghost predicate IsDepth(deps: seq<seq<nat>>, depth: seq<nat>) {
    && |depth| == |deps|
    && (forall v :: 0 <= v < |deps| ==> Below(deps[v], |depth|))
    && (forall v :: 0 <= v < |deps| ==> depth[v] == DepthAfter(deps[v], depth))
  }

  lemma {:induction false} DepthAfterIsMax(ds: seq<nat>, depth: seq<nat>)
    requires Below(ds, |depth|)
    ensures forall i :: 0 <= i < |ds| ==> depth[ds[i]] + 1 <= DepthAfter(ds, depth)
    ensures ds == [] ==> DepthAfter(ds, depth) == 0
    ensures ds != [] ==> exists i :: 0 <= i < |ds| && DepthAfter(ds, depth) == depth[ds[i]] + 1
  {
    if ds != [] {
      var t := ds[..|ds| - 1];
      DepthAfterIsMax(t, depth);
      if t != [] {
        var i :| 0 <= i < |t| && DepthAfter(t, depth) == depth[t[i]] + 1;
        assert t[i] == ds[i];
      }
      forall i | 0 <= i < |ds|
        ensures depth[ds[i]] + 1 <= DepthAfter(ds, depth)
      {
        if i < |t| {
          assert t[i] == ds[i];
        }
      }
      assert ds[|ds| - 1] == ds[|ds| - 1];
    }
  }

  /** The depth of a node bounds the length of every path that starts at it. */
  lemma {:induction false} DepthBoundsPaths(edges: seq<Edge>, deps: seq<seq<nat>>, depth: seq<nat>, p: seq<nat>)
    requires IsDepth(deps, depth) && InRange(edges, |deps|)
    requires forall v :: 0 <= v < |deps| ==> deps[v] == Dependencies(edges, v)
    requires Path(edges, p) && p[0] < |deps|
    ensures |p| - 1 <= depth[p[0]]
    decreases |p|
  {
    if |p| > 1 {
      assert Linked(edges, p, 0);
      DependenciesAre(edges, p[0], p[1]);
      var q := p[1..];
      forall i | 0 <= i < |q| - 1
        ensures Linked(edges, q, i)
      {
        assert Linked(edges, p, i + 1);
      }
      DepthBoundsPaths(edges, deps, depth, q);
      DepthAfterIsMax(deps[p[0]], depth);
      var i :| 0 <= i < |deps[p[0]]| && deps[p[0]][i] == p[1];
      assert depth[deps[p[0]][i]] + 1 <= depth[p[0]];
    }
  }

  /** The depth of a node is the length of some path that starts at it. */
  lemma {:induction false} DepthIsAttained(edges: seq<Edge>, deps: seq<seq<nat>>, depth: seq<nat>, v: nat) returns (p: seq<nat>)
    requires IsDepth(deps, depth) && v < |deps|
    requires forall v :: 0 <= v < |deps| ==> deps[v] == Dependencies(edges, v)
    ensures Path(edges, p) && p[0] == v && |p| - 1 == depth[v]
    decreases depth[v]
  {
    p := [v];
    DepthAfterIsMax(deps[v], depth);
    if depth[v] > 0 {
      var i :| 0 <= i < |deps[v]| && depth[v] == depth[deps[v][i]] + 1;
      var d := deps[v][i];
      DependenciesAre(edges, v, d);
      var q := DepthIsAttained(edges, deps, depth, d);
      PathCons(edges, v, q);
      p := [v] + q;
    }
  }
}
