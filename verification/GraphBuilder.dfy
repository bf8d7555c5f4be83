/**
  The graph builder: nodes and edges accumulate, and `Build` validates and freezes them with
  Kahn's algorithm over a FIFO queue.
*/
module GraphBuilder {
  import opened Options
  import opened DependencyGraphs

  datatype Status = Success | CycleDetected | UnknownNodeReference

  // ----- In-degrees -----

  /** How many of these dependencies (with repeats) are not in the order yet. */
  function Open(ds: seq<nat>, order: seq<nat>): nat {
    if ds == [] then 0
    else Open(ds[..|ds| - 1], order) + if ds[|ds| - 1] in order then 0 else 1
  }

  lemma {:induction false} OpenZero(ds: seq<nat>, order: seq<nat>)
    ensures Open(ds, order) == 0 <==> forall d :: d in ds ==> d in order
  {
    if ds != [] {
      OpenZero(ds[..|ds| - 1], order);
      assert ds == ds[..|ds| - 1] + [ds[|ds| - 1]];
    }
  }

  lemma {:induction false} OpenStart(ds: seq<nat>)
    ensures Open(ds, []) == |ds|
  {
    if ds != [] {
      OpenStart(ds[..|ds| - 1]);
    }
  }

  /** Listing one more node closes exactly its occurrences. */
  lemma {:induction false} OpenNext(ds: seq<nat>, order: seq<nat>, id: nat)
    requires id !in order
    ensures Open(ds, order) == Open(ds, order + [id]) + multiset(ds)[id]
  {
    if ds != [] {
      OpenNext(ds[..|ds| - 1], order, id);
      assert ds == ds[..|ds| - 1] + [ds[|ds| - 1]];
    }
  }

  // ----- The loop of Kahn's algorithm, as a predicate on its variables -----

  /**
    Nodes in `order` are emitted, those in `queue` are ready; the successors of the node emitted
    last that are still to be visited are in `rest`.
  */
  ghost predicate Peeling(deps: seq<seq<nat>>, inDegree: seq<nat>, order: seq<nat>, queue: seq<nat>, rest: seq<nat>) {
    && |inDegree| == |deps| && Below(rest, |deps|)
    && Distinct(order + queue) && Below(order + queue, |deps|)
    && DependenciesFirst(deps, order)
    && (forall v :: 0 <= v < |deps| ==> inDegree[v] == Open(deps[v], order) + multiset(rest)[v])
    && (forall v :: 0 <= v < |deps| ==> (v in order + queue <==> inDegree[v] == 0))
  }

  ghost predicate Graph(deps: seq<seq<nat>>, succs: seq<seq<nat>>) {
    && |succs| == |deps|
    && (forall v :: 0 <= v < |deps| ==> Below(deps[v], |deps|) && Below(succs[v], |deps|))
    && (forall v, d :: 0 <= v < |deps| && 0 <= d < |deps| ==> multiset(deps[v])[d] == multiset(succs[d])[v])
  }

  /** Emitting the front of the queue. */
  lemma PeelEmit(deps: seq<seq<nat>>, succs: seq<seq<nat>>, inDegree: seq<nat>, order: seq<nat>, queue: seq<nat>)
    requires Graph(deps, succs) && Peeling(deps, inDegree, order, queue, []) && queue != []
    ensures queue[0] < |deps|
    ensures Peeling(deps, inDegree, order + [queue[0]], queue[1..], succs[queue[0]])
  {
    var id, order', queue' := queue[0], order + [queue[0]], queue[1..];
    assert order' + queue' == order + queue;
    assert (order + queue)[|order|] == id;
    forall i | 0 <= i < |order|
      ensures order[i] != id
    {
      assert (order + queue)[i] == order[i];
    }
    forall v | 0 <= v < |deps|
      ensures inDegree[v] == Open(deps[v], order') + multiset(succs[id])[v]
    {
      OpenNext(deps[v], order, id);
    }
    assert id in order + queue;
    OpenZero(deps[id], order);
    forall i | 0 <= i < |order'|
      ensures forall d :: d in deps[order'[i]] ==> d in order'[..i]
    {
      assert order'[..i] == order[..i];
    }
  }

  /** Visiting one successor. */
  lemma PeelVisit(deps: seq<seq<nat>>, inDegree: seq<nat>, order: seq<nat>, queue: seq<nat>, rest: seq<nat>)
    requires Peeling(deps, inDegree, order, queue, rest) && rest != []
    ensures inDegree[rest[0]] > 0
    ensures var inDegree' := inDegree[rest[0] := inDegree[rest[0]] - 1];
      Peeling(deps, inDegree', order, if inDegree'[rest[0]] == 0 then queue + [rest[0]] else queue, rest[1..])
  {
    var v := rest[0];
    assert rest == [v] + rest[1..];
    assert multiset(rest)[v] > 0;
    var inDegree' := inDegree[v := inDegree[v] - 1];
    if inDegree'[v] == 0 {
      var queue' := queue + [v];
      assert order + queue' == (order + queue) + [v];
      assert v !in order + queue;
    }
  }

  /** When the queue runs dry, either everything is emitted or the rest holds a cycle. */
  lemma PeelEnd(edges: seq<Edge>, deps: seq<seq<nat>>, inDegree: seq<nat>, order: seq<nat>)
    requires Peeling(deps, inDegree, order, [], [])
    requires forall v :: 0 <= v < |deps| ==> deps[v] == Dependencies(edges, v) && Below(deps[v], |deps|)
    ensures |order| == |deps| ==> Topological(deps, order)
    ensures |order| != |deps| ==> exists c :: Cycle(edges, c)
  {
    assert order + [] == order;
    DistinctBelow(order, |deps|);
    if |order| != |deps| {
      var u := UpTo(|deps|) - Elements(order);
      DistinctSize(order);
      UpToSize(|deps|);
      assert Elements(order) <= UpTo(|deps|);
      assert UpTo(|deps|) == Elements(order) + u;
      assert u != {};
      var v :| v in u;
      forall w | w in u
        ensures DependsInto(edges, u, w)
      {
        OpenZero(deps[w], order);
        assert w !in order;
        var d :| d in deps[w] && d !in order;
        DependenciesAre(edges, w, d);
        assert d in u;
      }
      var c := StuckHasCycle(edges, u, v, |deps|);
    }
  }

  // ----- Layering: the queue holds at most two consecutive depths -----

  ghost predicate DepthSorted(s: seq<nat>, depth: seq<nat>) {
    Below(s, |depth|) && forall i, j :: 0 <= i <= j < |s| ==> depth[s[i]] <= depth[s[j]]
  }

  ghost predicate WithinDepth(s: seq<nat>, depth: seq<nat>, top: nat) {
    Below(s, |depth|) && forall i :: 0 <= i < |s| ==> depth[s[i]] <= top
  }

  /** While the successors of id are visited, nothing is deeper than one below id. */
  ghost predicate Layer(order: seq<nat>, queue: seq<nat>, depth: seq<nat>, id: nat) {
    && id < |depth| && order != [] && order[|order| - 1] == id
    && DepthSorted(order + queue, depth) && WithinDepth(order + queue, depth, depth[id] + 1)
  }

  ghost predicate Layered(order: seq<nat>, queue: seq<nat>, depth: seq<nat>) {
    && DepthSorted(order + queue, depth)
    && (queue != [] ==> WithinDepth(order + queue, depth, depth[(order + queue)[|order|]] + 1))
  }

  lemma LayerEmit(order: seq<nat>, queue: seq<nat>, depth: seq<nat>)
    requires Layered(order, queue, depth) && queue != []
    ensures Layer(order + [queue[0]], queue[1..], depth, queue[0])
  {
    assert (order + [queue[0]]) + queue[1..] == order + queue;
    assert (order + queue)[|order|] == queue[0];
  }

  lemma LayerDone(order: seq<nat>, queue: seq<nat>, depth: seq<nat>, id: nat)
    requires Layer(order, queue, depth, id)
    ensures Layered(order, queue, depth)
  {
    var s := order + queue;
    if queue != [] {
      assert s[|order| - 1] == id;
      assert depth[s[|order| - 1]] <= depth[s[|order|]];
    }
  }

  /** A node whose last dependency is emitted now is exactly one deeper than that dependency. */
  lemma LayerPush(deps: seq<seq<nat>>, order: seq<nat>, queue: seq<nat>, depth: seq<nat>, id: nat, v: nat)
    requires IsDepth(deps, depth) && Layer(order, queue, depth, id)
    requires v < |deps| && id in deps[v] && forall d :: d in deps[v] ==> d in order
    ensures Layer(order, queue + [v], depth, id)
  {
    var s := order + queue;
    assert order + (queue + [v]) == s + [v];
    DepthAfterIsMax(deps[v], depth);
    assert s[|order| - 1] == id;
    forall d | d in deps[v]
      ensures depth[d] <= depth[id]
    {
      var i :| 0 <= i < |order| && order[i] == d;
      assert s[i] == d;
      assert depth[s[i]] <= depth[s[|order| - 1]];
    }
    assert depth[v] == depth[id] + 1;
  }

  /** Nodes without dependencies all have depth 0. */
  lemma LayerStart(deps: seq<seq<nat>>, queue: seq<nat>, depth: seq<nat>)
    requires IsDepth(deps, depth) && Below(queue, |deps|)
    requires forall i :: 0 <= i < |queue| ==> deps[queue[i]] == []
    ensures Layered([], queue, depth)
  {
    assert [] + queue == queue;
    forall i | 0 <= i < |queue|
      ensures depth[queue[i]] == 0
    {
      DepthAfterIsMax(deps[queue[i]], depth);
    }
  }

  // ----- First in, first out -----

  /** Where v is mentioned last, or -1. */
  function LastAt(seen: seq<nat>, v: nat): int {
    if seen == [] then -1
    else if seen[|seen| - 1] == v then |seen| - 1
    else LastAt(seen[..|seen| - 1], v)
  }

  /** The successors of these nodes, one node after another. */
  ghost function Mentions(succs: seq<seq<nat>>, order: seq<nat>): seq<nat> {
    if order == [] then []
    else
      var id := order[|order| - 1];
      Mentions(succs, order[..|order| - 1]) + if id < |succs| then succs[id] else []
  }

  ghost predicate Before(seen: seq<nat>, u: nat, v: nat) {
    LastAt(seen, u) < LastAt(seen, v) || (LastAt(seen, u) == LastAt(seen, v) && u < v)
  }

  /** Nodes in the order of their last mention; those without any come first, by id. */
  ghost predicate Fifo(s: seq<nat>, seen: seq<nat>) {
    forall i, j :: 0 <= i < j < |s| ==> Before(seen, s[i], s[j])
  }

  lemma {:induction false} LastAtBelow(seen: seq<nat>, v: nat)
    ensures -1 <= LastAt(seen, v) < |seen|
  {
    if seen != [] {
      LastAtBelow(seen[..|seen| - 1], v);
    }
  }

  lemma LastAtNext(seen: seq<nat>, v: nat, u: nat)
    ensures LastAt(seen + [v], u) == if u == v then |seen| else LastAt(seen, u)
  {
    assert (seen + [v])[..|seen|] == seen;
  }

  /** What is queued is not mentioned again, and what is queued now is mentioned after all of it. */
  lemma FifoVisit(s: seq<nat>, seen: seq<nat>, v: nat)
    requires Fifo(s, seen) && v !in s
    ensures Fifo(s, seen + [v]) && Fifo(s + [v], seen + [v])
  {
    var t, seen' := s + [v], seen + [v];
    forall i, j | 0 <= i < j < |t|
      ensures Before(seen', t[i], t[j])
    {
      assert t[i] == s[i] && t[i] in s;
      assert t[j] == if j < |s| then s[j] else v;
      LastAtNext(seen, v, t[i]);
      LastAtNext(seen, v, t[j]);
      LastAtBelow(seen, t[i]);
      assert j < |s| ==> t[j] in s && Before(seen, s[i], s[j]);
    }
    forall i, j | 0 <= i < j < |s|
      ensures Before(seen', s[i], s[j])
    {
      assert Before(seen', t[i], t[j]);
    }
  }

  lemma RestNotQueued(deps: seq<seq<nat>>, inDegree: seq<nat>, order: seq<nat>, queue: seq<nat>, rest: seq<nat>)
    requires Peeling(deps, inDegree, order, queue, rest) && rest != []
    ensures rest[0] !in order + queue
  {
    assert multiset(rest)[rest[0]] > 0;
  }

  lemma MentionsNext(succs: seq<seq<nat>>, order: seq<nat>, id: nat)
    requires id < |succs|
    ensures Mentions(succs, order + [id]) == Mentions(succs, order) + succs[id]
  {
    assert (order + [id])[..|order|] == order;
  }

  // ----- The algorithm -----

  /** Distributes the edges over per-node lists; fails on an id outside the graph. */
  method Distribute(edges: seq<Edge>, count: nat, succs: array<seq<nat>>, deps: array<seq<nat>>, inDegree: array<nat>) returns (ok: bool)
    requires succs.Length == deps.Length == inDegree.Length == count
    requires succs != deps
    requires forall v :: 0 <= v < count ==> succs[v] == [] && deps[v] == [] && inDegree[v] == 0
    modifies succs, deps, inDegree
    ensures ok <==> InRange(edges, count)
    ensures ok ==> forall v :: 0 <= v < count ==> succs[v] == Successors(edges, v)
    ensures ok ==> forall v :: 0 <= v < count ==> deps[v] == Dependencies(edges, v)
    ensures ok ==> forall v :: 0 <= v < count ==> inDegree[v] == |deps[v]|
  {
    var i := 0;
    while i < |edges|
      invariant 0 <= i <= |edges| && InRange(edges[..i], count)
      invariant forall v :: 0 <= v < count ==> succs[v] == Successors(edges[..i], v)
      invariant forall v :: 0 <= v < count ==> deps[v] == Dependencies(edges[..i], v)
      invariant forall v :: 0 <= v < count ==> inDegree[v] == |deps[v]|
    {
      var e := edges[i];
      assert edges[..i + 1][..i] == edges[..i];
      assert edges[..i + 1][i] == e;
      if e.node >= count || e.dependency >= count {
        return false;
      }
      succs[e.dependency] := succs[e.dependency] + [e.node];
      deps[e.node] := deps[e.node] + [e.dependency];
      inDegree[e.node] := inDegree[e.node] + 1;
      i := i + 1;
    }
    assert edges[..i] == edges;
    ok := true;
  }

  /** Every depth assignment sees the emitted nodes and the queue in layers. */
  ghost predicate AllLayered(deps: seq<seq<nat>>, order: seq<nat>, queue: seq<nat>) {
    forall depth :: IsDepth(deps, depth) ==> Layered(order, queue, depth)
  }

  ghost predicate AllLayer(deps: seq<seq<nat>>, order: seq<nat>, queue: seq<nat>, id: nat) {
    forall depth :: IsDepth(deps, depth) ==> Layer(order, queue, depth, id)
  }

  lemma AllLayerPush(deps: seq<seq<nat>>, inDegree: seq<nat>, order: seq<nat>, queue: seq<nat>, rest: seq<nat>, id: nat, v: nat)
    requires AllLayer(deps, order, queue, id) && Peeling(deps, inDegree, order, queue + [v], rest)
    requires v < |deps| && id in deps[v]
    ensures AllLayer(deps, order, queue + [v], id)
  {
    assert (order + (queue + [v]))[|order + queue|] == v;
    assert v in order + (queue + [v]);
    assert inDegree[v] == 0;
    OpenZero(deps[v], order);
    forall depth | IsDepth(deps, depth)
      ensures Layer(order, queue + [v], depth, id)
    {
      LayerPush(deps, order, queue, depth, id, v);
    }
  }

  /** Decrements the successors of the node just emitted and queues those that become ready. */
  method VisitSuccessors(ghost deps: seq<seq<nat>>, succs: seq<nat>, inDegree: array<nat>, ghost order: seq<nat>, ready: seq<nat>, ghost id: nat,
                         ghost seen: seq<nat>)
    returns (queue: seq<nat>)
    requires Peeling(deps, inDegree[..], order, ready, succs) && AllLayer(deps, order, ready, id) && Fifo(order + ready, seen)
    requires forall v :: v in succs ==> v < |deps| && id in deps[v]
    modifies inDegree
    ensures Peeling(deps, inDegree[..], order, queue, []) && AllLayer(deps, order, queue, id)
    ensures Fifo(order + queue, seen + succs)
  {
    hide Peeling, AllLayer, Fifo;
    queue := ready;
    var i := 0;
    assert succs[0..] == succs && seen + succs[..0] == seen;
    while i < |succs|
      invariant 0 <= i <= |succs|
      invariant Peeling(deps, inDegree[..], order, queue, succs[i..])
      invariant AllLayer(deps, order, queue, id)
      invariant Fifo(order + queue, seen + succs[..i])
    {
      var v := succs[i];
      RestNotQueued(deps, inDegree[..], order, queue, succs[i..]);
      FifoVisit(order + queue, seen + succs[..i], v);
      assert seen + succs[..i] + [v] == seen + succs[..i + 1];
      assert order + queue + [v] == order + (queue + [v]);
      assert v in succs;
      assert succs[i..][0] == v && succs[i..][1..] == succs[i + 1..];
      PeelingSizes(deps, inDegree[..], order, queue, succs[i..]);
      PeelVisit(deps, inDegree[..], order, queue, succs[i..]);
      ghost var was := inDegree[..];
      inDegree[v] := inDegree[v] - 1;
      assert inDegree[..] == was[v := was[v] - 1];
      if inDegree[v] == 0 {
        AllLayerPush(deps, inDegree[..], order, queue, succs[i + 1..], id, v);
        queue := queue + [v];
      }
      i := i + 1;
    }
    assert succs[i..] == [] && succs[..i] == succs;
  }

  lemma PeelingSizes(deps: seq<seq<nat>>, inDegree: seq<nat>, order: seq<nat>, queue: seq<nat>, rest: seq<nat>)
    requires Peeling(deps, inDegree, order, queue, rest)
    ensures |inDegree| == |deps| && |order| + |queue| <= |deps|
  {
    DistinctBelow(order + queue, |deps|);
  }

  lemma SuccessorsDepend(deps: seq<seq<nat>>, succs: seq<seq<nat>>, id: nat)
    requires Graph(deps, succs) && id < |deps|
    ensures forall v :: v in succs[id] ==> v < |deps| && id in deps[v]
  {
    forall v | v in succs[id]
      ensures v < |deps| && id in deps[v]
    {
      assert multiset(succs[id])[v] > 0;
      assert multiset(deps[v])[id] > 0;
    }
  }

  /** Kahn's loop: emits every node that is not behind a cycle, layer by layer. */
  method Peel(ghost deps: seq<seq<nat>>, succs: seq<seq<nat>>, inDegree: array<nat>) returns (order: seq<nat>)
    requires Graph(deps, succs) && inDegree.Length == |deps|
    requires forall v :: 0 <= v < |deps| ==> inDegree[v] == |deps[v]|
    modifies inDegree
    ensures Peeling(deps, inDegree[..], order, [], []) && AllLayered(deps, order, [])
    ensures Fifo(order, Mentions(succs, order))
  {
    hide Peeling, AllLayered, AllLayer, Graph, Fifo;
    var queue := Ready(deps, inDegree);
    order := [];
    assert order + queue == queue;
    while queue != []
      invariant Peeling(deps, inDegree[..], order, queue, []) && AllLayered(deps, order, queue)
      invariant Fifo(order + queue, Mentions(succs, order))
      invariant |order| <= |deps|
      decreases |deps| - |order|
    {
      var id := queue[0];
      PeelEmit(deps, succs, inDegree[..], order, queue);
      PeelingSizes(deps, inDegree[..], order, queue, []);
      AllLayerEmit(deps, order, queue);
      SuccessorsDepend(deps, succs, id);
      GraphSizes(deps, succs);
      ghost var seen := Mentions(succs, order);
      MentionsNext(succs, order, id);
      assert order + [id] + queue[1..] == order + queue;
      order := order + [id];
      queue := VisitSuccessors(deps, succs[id], inDegree, order, queue[1..], id, seen);
      AllLayerDone(deps, order, queue, id);
      PeelingSizes(deps, inDegree[..], order, queue, []);
    }
    assert order + [] == order;
  }

  lemma GraphSizes(deps: seq<seq<nat>>, succs: seq<seq<nat>>)
    requires Graph(deps, succs)
    ensures |succs| == |deps|
  {
  }

  lemma AllLayerEmit(deps: seq<seq<nat>>, order: seq<nat>, queue: seq<nat>)
    requires AllLayered(deps, order, queue) && queue != []
    ensures AllLayer(deps, order + [queue[0]], queue[1..], queue[0])
  {
    forall depth | IsDepth(deps, depth)
      ensures Layer(order + [queue[0]], queue[1..], depth, queue[0])
    {
      LayerEmit(order, queue, depth);
    }
  }

  lemma AllLayerDone(deps: seq<seq<nat>>, order: seq<nat>, queue: seq<nat>, id: nat)
    requires AllLayer(deps, order, queue, id)
    ensures AllLayered(deps, order, queue)
  {
    forall depth | IsDepth(deps, depth)
      ensures Layered(order, queue, depth)
    {
      LayerDone(order, queue, depth, id);
    }
  }

  /** The initial queue: all nodes without dependencies, in id order. */
  method Ready(ghost deps: seq<seq<nat>>, inDegree: array<nat>) returns (queue: seq<nat>)
    requires inDegree.Length == |deps|
    requires forall v :: 0 <= v < |deps| ==> inDegree[v] == |deps[v]|
    ensures Peeling(deps, inDegree[..], [], queue, []) && AllLayered(deps, [], queue) && Fifo(queue, [])
  {
    hide Peeling, AllLayered;
    queue := [];
    var id := 0;
    while id < inDegree.Length
      invariant 0 <= id <= inDegree.Length
      invariant forall i :: 0 <= i < |queue| ==> queue[i] < id && inDegree[queue[i]] == 0
      invariant forall i, j :: 0 <= i < j < |queue| ==> queue[i] < queue[j]
      invariant forall v :: 0 <= v < id && inDegree[v] == 0 ==> v in queue
    {
      if inDegree[id] == 0 {
        queue := queue + [id];
      }
      id := id + 1;
    }
    ReadyPeels(deps, inDegree[..], queue);
  }

  lemma ReadyPeels(deps: seq<seq<nat>>, inDegree: seq<nat>, queue: seq<nat>)
    requires |inDegree| == |deps| && forall v :: 0 <= v < |deps| ==> inDegree[v] == |deps[v]|
    requires Distinct(queue) && Below(queue, |deps|)
    requires forall v :: 0 <= v < |deps| ==> (v in queue <==> inDegree[v] == 0)
    ensures Peeling(deps, inDegree, [], queue, []) && AllLayered(deps, [], queue)
  {
    assert [] + queue == queue;
    forall v | 0 <= v < |deps|
      ensures inDegree[v] == Open(deps[v], []) + multiset([])[v]
    {
      OpenStart(deps[v]);
    }
    forall depth | IsDepth(deps, depth)
      ensures Layered([], queue, depth)
    {
      hide Layered;
      LayerStart(deps, queue, depth);
    }
  }

  // ----- The builder -----

  datatype PendingNode<W> = PendingNode(name: string, work: W)

  ghost function DependencyLists<W>(g: DependencyGraph<W>): seq<seq<nat>> {
    seq(|g.nodes|, v requires 0 <= v < |g.nodes| => g.nodes[v].dependencies)
  }

  ghost function SuccessorLists<W>(g: DependencyGraph<W>): seq<seq<nat>> {
    seq(|g.nodes|, v requires 0 <= v < |g.nodes| => g.nodes[v].successors)
  }

  /** The order lists nodes by non-decreasing longest-path depth. */
  ghost predicate IsLayering(deps: seq<seq<nat>>, order: seq<nat>) {
    forall depth :: IsDepth(deps, depth) ==> DepthSorted(order, depth)
  }

  /** What freezing these nodes and edges must produce. */
  ghost predicate Frozen<W>(nodes: seq<PendingNode<W>>, edges: seq<Edge>, g: DependencyGraph<W>) {
    && |g.nodes| == |nodes|
    && (forall v :: 0 <= v < |nodes| ==>
          g.nodes[v] == Node(nodes[v].name, nodes[v].work, Successors(edges, v), Dependencies(edges, v)))
    && Topological(DependencyLists(g), g.order)
    && IsLayering(DependencyLists(g), g.order)
  }

  lemma {:induction false} EndpointsBelow(edges: seq<Edge>, count: nat, v: nat)
    requires InRange(edges, count)
    ensures Below(Dependencies(edges, v), count) && Below(Successors(edges, v), count)
  {
    if edges != [] {
      var t := edges[..|edges| - 1];
      assert forall i :: 0 <= i < |t| ==> t[i] == edges[i];
      EndpointsBelow(t, count, v);
    }
  }

  lemma EdgesMakeGraph(edges: seq<Edge>, deps: seq<seq<nat>>, succs: seq<seq<nat>>)
    requires InRange(edges, |deps|) && |succs| == |deps|
    requires forall v :: 0 <= v < |deps| ==> deps[v] == Dependencies(edges, v) && succs[v] == Successors(edges, v)
    ensures Graph(deps, succs)
  {
    forall v | 0 <= v < |deps|
      ensures Below(deps[v], |deps|) && Below(succs[v], |deps|)
    {
      EndpointsBelow(edges, |deps|, v);
    }
    forall v, d | 0 <= v < |deps| && 0 <= d < |deps|
      ensures multiset(deps[v])[d] == multiset(succs[d])[v]
    {
      Transposed(edges, v, d);
    }
  }

  lemma LayeredOrder(deps: seq<seq<nat>>, order: seq<nat>)
    requires AllLayered(deps, order, [])
    ensures IsLayering(deps, order)
  {
    assert order + [] == order;
  }

  /** Kahn's algorithm decides whether the edges have a cycle. */
  method SortEdges(count: nat, edges: seq<Edge>) returns (status: Status, succs: seq<seq<nat>>, deps: seq<seq<nat>>, order: seq<nat>)
    ensures status.UnknownNodeReference? <==> !InRange(edges, count)
    ensures status.CycleDetected? <==> InRange(edges, count) && exists c :: Cycle(edges, c)
    ensures status.Success? ==> |deps| == |succs| == count && Topological(deps, order) && IsLayering(deps, order)
    ensures status.Success? ==> forall v :: 0 <= v < count ==> deps[v] == Dependencies(edges, v) && succs[v] == Successors(edges, v)
    ensures status.Success? ==> Fifo(order, Mentions(succs, order))
  {
    hide Peeling, AllLayered, Topological, IsLayering, Graph, Cycle, InRange, Dependencies, Successors, Fifo;
    succs, deps, order := [], [], [];
    var successors := new seq<nat>[count](_ => []);
    var dependencies := new seq<nat>[count](_ => []);
    var inDegree := new nat[count](_ => 0);
    var ok := Distribute(edges, count, successors, dependencies, inDegree);
    if !ok {
      return UnknownNodeReference, succs, deps, order;
    }
    succs, deps := successors[..], dependencies[..];
    EdgesMakeGraph(edges, deps, succs);
    order := Peel(deps, succs, inDegree);
    GraphBelow(deps, succs);
    PeelEnd(edges, deps, inDegree[..], order);
    LayeredOrder(deps, order);
    if |order| != count {
      status := CycleDetected;
    } else {
      status := Success;
      forall c
        ensures !Cycle(edges, c)
      {
        OrderedIsAcyclic(edges, deps, order, c);
      }
    }
  }

  lemma GraphBelow(deps: seq<seq<nat>>, succs: seq<seq<nat>>)
    requires Graph(deps, succs)
    ensures forall v :: 0 <= v < |deps| ==> Below(deps[v], |deps|)
  {
  }

  class Builder<W> {
    var nodes: seq<PendingNode<W>>
    var edges: seq<Edge>

    constructor ()
      ensures nodes == [] && edges == []
    {
      nodes, edges := [], [];
    }

    method AddNode(name: string, work: W) returns (id: nat)
      modifies this`nodes
      ensures id == |old(nodes)| && nodes == old(nodes) + [PendingNode(name, work)]
    {
      id := |nodes|;
      nodes := nodes + [PendingNode(name, work)];
    }

    method DependsOn(node: nat, dependency: nat)
      modifies this`edges
      ensures edges == old(edges) + [Edge(node, dependency)]
    {
      edges := edges + [Edge(node, dependency)];
    }

    /** Validates and freezes; the result is given exactly when the status is success. */
    method Build() returns (status: Status, out: Option<DependencyGraph<W>>)
      ensures status.UnknownNodeReference? <==> !InRange(edges, |nodes|)
      ensures status.CycleDetected? <==> InRange(edges, |nodes|) && exists c :: Cycle(edges, c)
      ensures status.Success? <==> out.Some?
      ensures out.Some? ==> Frozen(nodes, edges, out.value)
      ensures out.Some? ==> Fifo(out.value.order, Mentions(SuccessorLists(out.value), out.value.order))
    {
      hide Topological, IsLayering, Cycle, InRange, Dependencies, Successors, Fifo;
      var succs, deps, order;
      status, succs, deps, order := SortEdges(|nodes|, edges);
      out := None;
      if status.Success? {
        var built := [];
        var id := 0;
        while id < |nodes|
          invariant 0 <= id <= |nodes| && |built| == id
          invariant forall v :: 0 <= v < id ==> built[v] == Node(nodes[v].name, nodes[v].work, succs[v], deps[v])
        {
          built := built + [Node(nodes[id].name, nodes[id].work, succs[id], deps[id])];
          id := id + 1;
        }
        var g := DependencyGraph(built, order);
        assert DependencyLists(g) == deps && SuccessorLists(g) == succs;
        out := Some(g);
      }
    }
  }

  // ----- Depth assignments exist, so the layering promise is about something -----

  lemma {:induction false} DepthAfterFrame(ds: seq<nat>, depth: seq<nat>, v: nat, x: nat)
    requires Below(ds, |depth|) && v < |depth| && v !in ds
    ensures DepthAfter(ds, depth[v := x]) == DepthAfter(ds, depth)
  {
    if ds != [] {
      DepthAfterFrame(ds[..|ds| - 1], depth, v, x);
    }
  }

  ghost predicate DepthSoFar(deps: seq<seq<nat>>, order: seq<nat>, k: nat, depth: seq<nat>) {
    && |depth| == |deps| && k <= |order| && Below(order, |deps|)
    && (forall v :: 0 <= v < |deps| ==> Below(deps[v], |depth|))
    && (forall i :: 0 <= i < k ==> depth[order[i]] == DepthAfter(deps[order[i]], depth))
  }

  lemma {:induction false} DepthExists(deps: seq<seq<nat>>, order: seq<nat>, k: nat) returns (depth: seq<nat>)
    requires Topological(deps, order) && k <= |order|
    requires forall v :: 0 <= v < |deps| ==> Below(deps[v], |deps|)
    ensures DepthSoFar(deps, order, k, depth)
    ensures k == |order| ==> IsDepth(deps, depth)
    decreases k
  {
    if k == 0 {
      depth := seq(|deps|, _ => 0);
    } else {
      var before := DepthExists(deps, order, k - 1);
      var v := order[k - 1];
      depth := before[v := DepthAfter(deps[v], before)];
      forall i | 0 <= i < k
        ensures depth[order[i]] == DepthAfter(deps[order[i]], depth)
      {
        assert v !in order[..i];
        assert v !in deps[order[i]];
        DepthAfterFrame(deps[order[i]], before, v, depth[v]);
      }
    }
    if k == |order| {
      forall v | 0 <= v < |deps|
        ensures depth[v] == DepthAfter(deps[v], depth)
      {
        var i := Position(order, v);
      }
    }
  }

  // ----- First in, first out leaves one order -----

  lemma {:induction false} LastAtUnmentioned(seen: seq<nat>, more: seq<nat>, v: nat)
    requires v !in more
    ensures LastAt(seen + more, v) == LastAt(seen, v)
  {
    if more == [] {
      assert seen + more == seen;
    } else {
      var front := more[..|more| - 1];
      assert (seen + more)[..|seen + more| - 1] == seen + front;
      LastAtUnmentioned(seen, front, v);
    }
  }

  lemma NotMentioned(deps: seq<seq<nat>>, succs: seq<seq<nat>>, id: nat, v: nat)
    requires Graph(deps, succs) && id < |succs| && v < |deps| && id !in deps[v]
    ensures v !in succs[id]
  {
    assert multiset(deps[v])[id] == multiset(succs[id])[v];
  }

  /** A node is last mentioned by its last dependency: later nodes do not matter. */
  lemma {:induction false} LastAtSettled(deps: seq<seq<nat>>, succs: seq<seq<nat>>, order: seq<nat>, k: nat, v: nat)
    requires Graph(deps, succs) && Distinct(order) && k <= |order| && v < |deps|
    requires forall d :: d in deps[v] ==> d in order[..k]
    ensures LastAt(Mentions(succs, order), v) == LastAt(Mentions(succs, order[..k]), v)
    decreases |order|
  {
    hide Graph;
    if k < |order| {
      var n := |order| - 1;
      var front, id := order[..n], order[n];
      assert front[..k] == order[..k];
      LastAtSettled(deps, succs, front, k, v);
      if id < |succs| {
        NotMentioned(deps, succs, id, v);
        LastAtUnmentioned(Mentions(succs, front), succs[id], v);
      } else {
        assert Mentions(succs, front) + [] == Mentions(succs, front);
      }
    } else {
      assert order[..k] == order;
    }
  }

  lemma TopologicalAt(deps: seq<seq<nat>>, order: seq<nat>, k: nat)
    requires Topological(deps, order)
    ensures |order| == |deps| && Distinct(order)
    ensures k < |order| ==> order[k] < |deps| && forall d :: d in deps[order[k]] ==> d in order[..k]
  {
  }

  lemma BothBefore(seen: seq<nat>, seen': seq<nat>, u: nat, v: nat)
    requires LastAt(seen, u) == LastAt(seen', u) && LastAt(seen, v) == LastAt(seen', v)
    ensures !(Before(seen, u, v) && Before(seen', v, u))
  {
  }

  /** Two such orders that agree so far agree on the next node. */
  lemma NextIsSame(deps: seq<seq<nat>>, succs: seq<seq<nat>>, p: seq<nat>, q: seq<nat>, k: nat)
    requires Graph(deps, succs) && Topological(deps, p) && Topological(deps, q)
    requires Fifo(p, Mentions(succs, p)) && Fifo(q, Mentions(succs, q))
    requires k < |p| == |q| && p[..k] == q[..k]
    ensures p[k] == q[k]
  {
    hide *;
    TopologicalAt(deps, p, k);
    TopologicalAt(deps, q, k);
    var x, y := p[k], q[k];
    if x != y {
      LastAtSettled(deps, succs, p, k, x);
      LastAtSettled(deps, succs, q, k, y);
      LastAtSettled(deps, succs, q, k, x);
      LastAtSettled(deps, succs, p, k, y);
      Later(deps, p, q, k);
      Later(deps, q, p, k);
      ComesBefore(p, Mentions(succs, p), k, y);
      ComesBefore(q, Mentions(succs, q), k, x);
      BothBefore(Mentions(succs, p), Mentions(succs, q), x, y);
    }
  }

  lemma {:induction false} OrdersAgree(deps: seq<seq<nat>>, succs: seq<seq<nat>>, p: seq<nat>, q: seq<nat>, n: nat)
    requires Graph(deps, succs) && Topological(deps, p) && Topological(deps, q)
    requires Fifo(p, Mentions(succs, p)) && Fifo(q, Mentions(succs, q))
    requires n <= |p| == |q|
    ensures p[..n] == q[..n]
  {
    hide *;
    if n > 0 {
      OrdersAgree(deps, succs, p, q, n - 1);
      NextIsSame(deps, succs, p, q, n - 1);
      assert p[..n] == p[..n - 1] + [p[n - 1]] && q[..n] == q[..n - 1] + [q[n - 1]];
    }
  }

  /** Dependencies first, then first in, first out: a graph has only one such order. */
  lemma OrderIsUnique(deps: seq<seq<nat>>, succs: seq<seq<nat>>, p: seq<nat>, q: seq<nat>)
    requires Graph(deps, succs) && Topological(deps, p) && Topological(deps, q)
    requires Fifo(p, Mentions(succs, p)) && Fifo(q, Mentions(succs, q))
    ensures p == q
  {
    hide *;
    TopologicalAt(deps, p, |p|);
    TopologicalAt(deps, q, |q|);
    OrdersAgree(deps, succs, p, q, |p|);
    assert p[..|p|] == p && q[..|q|] == q;
  }

  /** Where two orders part, the next node of the one comes later in the other. */
  lemma Later(deps: seq<seq<nat>>, p: seq<nat>, q: seq<nat>, k: nat)
    requires Topological(deps, p) && Topological(deps, q) && k < |p| && k < |q| && p[..k] == q[..k] && p[k] != q[k]
    ensures q[k] in p[k + 1..]
  {
    forall j | 0 <= j < k
      ensures p[j] == q[j]
    {
      assert p[j] == p[..k][j] && q[j] == q[..k][j];
    }
    var i := Position(p, q[k]);
    assert i > k;
    assert p[k + 1..][i - k - 1] == q[k];
  }

  lemma ComesBefore(s: seq<nat>, seen: seq<nat>, k: nat, v: nat)
    requires Fifo(s, seen) && k < |s| && v in s[k + 1..]
    ensures Before(seen, s[k], v)
  {
    var i :| 0 <= i < |s[k + 1..]| && s[k + 1..][i] == v;
    assert s[k + 1 + i] == v;
  }
}
