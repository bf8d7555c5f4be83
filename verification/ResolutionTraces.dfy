/**
  What a keyed builder has recorded, as a value: the frozen-to-be nodes and edges, the memo of
  resolved keys, and for every resolved key the interaction that produced its node.

  The keys in order of their ids are the history of the builder. Nodes are only ever added, so
  the number of nodes is a clock, and the memo at time n holds the first n keys of the history.
*/
module ResolutionTraces {
  import opened Sets
  import opened DependencyGraphs
  import opened GraphBuilder

  /** What a resolver callback hears back from the builder. */
  datatype Answer = Resolved(id: nat) | Refused(status: Status) | Known(isResolved: bool)

  /** What a resolver callback does next: resolve a key, query a key, or return. */
  datatype Move<K, W> = Ask(key: K) | Query(key: K) | Finish(status: Status, name: string, work: W)

  /** A resolver callback, as the function from the answers so far to its next move. */
  type Resolver<!K, !W> = (K, seq<Answer>) -> Move<K, W>

  /** A discovery callback: the keys needed in a given pass when those keys are resolved. */
  type Discover<!K(==)> = (K, nat, set<K>) -> seq<K>

  datatype Product<W> = Product(status: Status, name: string, work: W)

  type BuildFn<!K, !W> = K -> Product<W>

  /** One discovery pass: the time it ran, the unresolved keys it asked for, and the ids they got. */
  datatype Pass<K> = Pass(count: nat, found: seq<K>, ids: seq<nat>)

  /** How a node came about; `times` are the times before, between and after the answers. */
  datatype Origin<!K(==), !W> =
    | ByAnswers(resolver: Resolver<K, W>, answers: seq<Answer>, times: seq<nat>)
    | ByDiscovery(discover: Discover<K>, build: BuildFn<K, W>, passes: seq<Pass<K>>)

  datatype State<!K(==), !W> = State(
    nodes: seq<PendingNode<W>>,
    edges: seq<Edge>,
    resolved: map<K, nat>,
    keyOf: seq<K>,
    origin: map<K, Origin<K, W>>)

  // ----- The history -----

  /** The memo at time n. */
  ghost function At<K>(h: seq<K>, n: nat): set<K>
    requires n <= |h|
  {
    set k | k in h[..n]
  }

  lemma AtGrows<K>(h: seq<K>, h': seq<K>, n: nat)
    requires h <= h' && n <= |h|
    ensures At(h', n) == At(h, n)
  {
    assert h'[..n] == h[..n];
  }

  lemma AtLater<K>(h: seq<K>, m: nat, n: nat)
    requires m <= n <= |h|
    ensures At(h, m) <= At(h, n)
  {
    forall k | k in h[..m]
      ensures k in h[..n]
    {
      var i :| 0 <= i < m && h[i] == k;
      assert h[..n][i] == k;
    }
  }

  function Max(a: nat, b: nat): nat {
    if a < b then b else a
  }

  /** The time after resolving keys to these ids, one after the other: each is old or the newest. */
  function Clock(n: nat, ids: seq<nat>): nat {
    if ids == [] then n else Max(Clock(n, ids[..|ids| - 1]), ids[|ids| - 1] + 1)
  }

  lemma ClockNext(n: nat, ids: seq<nat>, id: nat)
    ensures Clock(n, ids + [id]) == Max(Clock(n, ids), id + 1)
  {
    assert (ids + [id])[..|ids|] == ids;
  }

  lemma {:induction false} ClockAdvances(n: nat, ids: seq<nat>)
    ensures n <= Clock(n, ids)
    ensures forall i :: 0 <= i < |ids| ==> ids[i] < Clock(n, ids)
  {
    if ids != [] {
      ClockAdvances(n, ids[..|ids| - 1]);
    }
  }

  /** The ids are those of the keys. */
  ghost predicate Named<K>(h: seq<K>, ids: seq<nat>, keys: seq<K>) {
    |ids| == |keys| && forall j :: 0 <= j < |ids| ==> ids[j] < |h| && h[ids[j]] == keys[j]
  }

  // ----- Reading a trace -----

  /** The ids of the successful answers, in order and with repeats. */
  function Ids(answers: seq<Answer>): seq<nat> {
    if answers == [] then []
    else
      var last := answers[|answers| - 1];
      Ids(answers[..|answers| - 1]) + if last.Resolved? then [last.id] else []
  }

  /** The keys that a resolver asked for successfully. */
  function AskedKeys<K, W>(resolver: Resolver<K, W>, key: K, answers: seq<Answer>): seq<K> {
    if answers == [] then []
    else
      var before := answers[..|answers| - 1];
      var move := resolver(key, before);
      AskedKeys(resolver, key, before) +
      if answers[|answers| - 1].Resolved? && move.Ask? then [move.key] else []
  }

  function FoundKeys<K>(passes: seq<Pass<K>>): seq<K> {
    if passes == [] then []
    else FoundKeys(passes[..|passes| - 1]) + passes[|passes| - 1].found
  }

  function FoundIds<K>(passes: seq<Pass<K>>): seq<nat> {
    if passes == [] then []
    else FoundIds(passes[..|passes| - 1]) + passes[|passes| - 1].ids
  }

  /** The keys whose results a node receives, in order and with repeats. */
  function DirectKeys<K, W>(key: K, o: Origin<K, W>): seq<K> {
    match o
    case ByAnswers(resolver, answers, _) => AskedKeys(resolver, key, answers)
    case ByDiscovery(_, _, passes) => FoundKeys(passes)
  }

  /** The time at which the interaction began. */
  function StartOf<K, W>(o: Origin<K, W>): nat {
    match o
    case ByAnswers(_, _, times) => if times == [] then 0 else times[0]
    case ByDiscovery(_, _, passes) => if passes == [] then 0 else passes[0].count
  }

  /** The time at which the callback returned, or the build callback ran. */
  function EndOf<K, W>(o: Origin<K, W>): nat {
    match o
    case ByAnswers(_, _, times) => if times == [] then 0 else times[|times| - 1]
    case ByDiscovery(_, _, passes) => if passes == [] then 0 else passes[|passes| - 1].count
  }

  /** The candidates that are not resolved, in order. */
  function Unresolved<K>(candidates: seq<K>, seen: set<K>): seq<K> {
    if candidates == [] then []
    else
      var last := candidates[|candidates| - 1];
      Unresolved(candidates[..|candidates| - 1], seen) + if last in seen then [] else [last]
  }

  ghost predicate AllIn<K>(keys: seq<K>, resolved: map<K, nat>) {
    forall i :: 0 <= i < |keys| ==> keys[i] in resolved
  }

  function IdsOf<K>(keys: seq<K>, resolved: map<K, nat>): seq<nat>
    requires AllIn(keys, resolved)
  {
    seq(|keys|, i requires 0 <= i < |keys| => resolved[keys[i]])
  }

  /**
    The i-th answer is the one the builder gives to the i-th move at that time: the id of the
    key, a refusal that leaves the key unresolved, or whether the key is in the memo.
  */
  ghost predicate Fits<K, W>(resolver: Resolver<K, W>, key: K, answers: seq<Answer>, times: seq<nat>, h: seq<K>, i: nat)
    requires i < |answers| && |times| == |answers| + 1
  {
    && times[i] <= times[i + 1] <= |h|
    && match resolver(key, answers[..i])
       case Ask(q) =>
         || (answers[i].Resolved? && answers[i].id < |h| && h[answers[i].id] == q && times[i + 1] == Max(times[i], answers[i].id + 1))
         || (answers[i].Refused? && !answers[i].status.Success? && q !in At(h, times[i + 1]))
       case Query(q) => answers[i].Known? && times[i + 1] == times[i] && (answers[i].isResolved <==> q in At(h, times[i]))
       case Finish(_, _, _) => false
  }

  ghost predicate Conversation<K, W>(resolver: Resolver<K, W>, key: K, answers: seq<Answer>, times: seq<nat>, h: seq<K>) {
    && |times| == |answers| + 1 && times[0] <= |h|
    && forall i :: 0 <= i < |answers| ==> Fits(resolver, key, answers, times, h, i)
  }

  /** The i-th pass asked for exactly the discovered keys that were not in the memo when it ran. */
  ghost predicate RunsPass<K>(discover: Discover<K>, key: K, passes: seq<Pass<K>>, h: seq<K>, i: nat)
    requires i < |passes|
  {
    && passes[i].count <= |h|
    && passes[i].found == Unresolved(discover(key, i, At(h, passes[i].count)), At(h, passes[i].count))
    && Named(h, passes[i].ids, passes[i].found)
  }

  /** A later pass runs as soon as everything the one before found is resolved, which was something. */
  ghost predicate FollowsPass<K>(passes: seq<Pass<K>>, i: nat)
    requires i < |passes|
  {
    i > 0 ==> passes[i - 1].found != [] && passes[i].count == Clock(passes[i - 1].count, passes[i - 1].ids)
  }

  ghost predicate Passes<K>(discover: Discover<K>, key: K, passes: seq<Pass<K>>, h: seq<K>) {
    forall i :: 0 <= i < |passes| ==> RunsPass(discover, key, passes, h, i) && FollowsPass(passes, i)
  }

  /** The passes reached the fixed point: the last one found nothing unresolved. */
  ghost predicate Completed<K>(discover: Discover<K>, key: K, passes: seq<Pass<K>>, h: seq<K>) {
    Passes(discover, key, passes, h) && passes != [] && passes[|passes| - 1].found == []
  }

  /** The node is what its recorded interaction produced. */
  ghost predicate Produced<K, W>(key: K, o: Origin<K, W>, node: PendingNode<W>, h: seq<K>) {
    match o
    case ByAnswers(resolver, answers, times) =>
      && Conversation(resolver, key, answers, times, h)
      && resolver(key, answers) == Finish(Success, node.name, node.work)
    case ByDiscovery(discover, build, passes) =>
      && Completed(discover, key, passes, h)
      && build(key) == Product(Success, node.name, node.work)
  }

  /** The interaction that produced node id began at time n. */
  ghost predicate Starts<K, W>(h: seq<K>, origin: map<K, Origin<K, W>>, id: nat, n: nat) {
    id < |h| && h[id] in origin && StartOf(origin[h[id]]) == n
  }

  /** Whatever was new when it was resolved began then: it is not older than the request. */
  ghost predicate BeganThen<K, W>(h: seq<K>, origin: map<K, Origin<K, W>>, n: nat, ids: seq<nat>, j: nat)
    requires j < |ids|
  {
    ids[j] >= Clock(n, ids[..j]) ==> Starts(h, origin, ids[j], Clock(n, ids[..j]))
  }

  ghost predicate AllBeganThen<K, W>(h: seq<K>, origin: map<K, Origin<K, W>>, n: nat, ids: seq<nat>) {
    forall j :: 0 <= j < |ids| ==> BeganThen(h, origin, n, ids, j)
  }

  ghost predicate PassesBeganThen<K, W>(h: seq<K>, origin: map<K, Origin<K, W>>, passes: seq<Pass<K>>) {
    forall i :: 0 <= i < |passes| ==> AllBeganThen(h, origin, passes[i].count, passes[i].ids)
  }

  ghost predicate AnswersBeganThen<K, W>(h: seq<K>, origin: map<K, Origin<K, W>>, answers: seq<Answer>, times: seq<nat>) {
    |times| == |answers| + 1 &&
    forall i :: 0 <= i < |answers| && answers[i].Resolved? && answers[i].id >= times[i] ==> Starts(h, origin, answers[i].id, times[i])
  }

  ghost predicate NestedBegan<K, W>(h: seq<K>, origin: map<K, Origin<K, W>>, o: Origin<K, W>) {
    match o
    case ByAnswers(_, answers, times) => AnswersBeganThen(h, origin, answers, times)
    case ByDiscovery(_, _, passes) => PassesBeganThen(h, origin, passes)
  }

  // ----- The invariant -----

  /** Resolved keys and node ids are in bijection. */
  ghost predicate Numbered<K, W>(s: State<K, W>) {
    && |s.keyOf| == |s.nodes|
    && (forall id :: 0 <= id < |s.keyOf| ==> s.keyOf[id] in s.resolved && s.resolved[s.keyOf[id]] == id)
    && (forall k :: k in s.resolved ==> s.resolved[k] < |s.keyOf| && s.keyOf[s.resolved[k]] == k)
  }

  /** Every edge goes from a node to one created before it. */
  ghost predicate Descending(edges: seq<Edge>, count: nat) {
    forall i :: 0 <= i < |edges| ==> edges[i].dependency < edges[i].node < count
  }

  /**
    The node of a resolved key is the product of its trace, was added the moment that trace
    ended, and depends on what the trace asked for.
  */
  ghost predicate Traced<K, W>(s: State<K, W>, key: K) {
    && key in s.resolved && key in s.origin && s.resolved[key] < |s.nodes|
    && Produced(key, s.origin[key], s.nodes[s.resolved[key]], s.keyOf)
    && EndOf(s.origin[key]) == s.resolved[key] && NestedBegan(s.keyOf, s.origin, s.origin[key])
    && AllIn(DirectKeys(key, s.origin[key]), s.resolved)
    && Dependencies(s.edges, s.resolved[key]) == IdsOf(DirectKeys(key, s.origin[key]), s.resolved)
  }

  ghost predicate Sound<K, W>(s: State<K, W>) {
    && Numbered(s) && Descending(s.edges, |s.nodes|) && s.origin.Keys == s.resolved.Keys
    && (forall k :: k in s.resolved ==> Traced(s, k))
  }

  /** The memo now is the memo at the present time. */
  lemma MemoIsAt<K, W>(s: State<K, W>, n: nat)
    requires Numbered(s) && n <= |s.nodes|
    ensures At(s.keyOf, |s.nodes|) == s.resolved.Keys
    ensures forall k :: k in At(s.keyOf, n) <==> k in s.resolved && s.resolved[k] < n
  {
    forall k
      ensures k in At(s.keyOf, n) <==> k in s.resolved && s.resolved[k] < n
    {
      if k in s.resolved && s.resolved[k] < n {
        assert s.keyOf[..n][s.resolved[k]] == k;
      }
    }
    forall k | k in s.resolved
      ensures k in At(s.keyOf, |s.nodes|)
    {
      assert s.keyOf[..|s.nodes|][s.resolved[k]] == k;
    }
  }

  lemma NamedIds<K, W>(s: State<K, W>, ids: seq<nat>, keys: seq<K>)
    requires Numbered(s) && Named(s.keyOf, ids, keys)
    ensures AllIn(keys, s.resolved) && IdsOf(keys, s.resolved) == ids
  {
    forall i | 0 <= i < |keys|
      ensures keys[i] in s.resolved && s.resolved[keys[i]] == ids[i]
    {
      assert s.keyOf[ids[i]] == keys[i];
    }
  }

  /** Later states keep everything recorded earlier. */
  ghost predicate Grows<K, W>(s: State<K, W>, t: State<K, W>) {
    && s.nodes <= t.nodes && s.edges <= t.edges && s.keyOf <= t.keyOf
    && (forall k :: k in s.resolved ==> k in t.resolved && t.resolved[k] == s.resolved[k])
    && (forall k :: k in s.origin ==> k in t.origin && t.origin[k] == s.origin[k])
  }

  /** Whatever is new in t was resolved with these discovery callbacks. */
  ghost predicate DiscoveredSince<K, W>(s: State<K, W>, t: State<K, W>, discover: Discover<K>, build: BuildFn<K, W>) {
    forall k :: k in t.origin && k !in s.origin ==>
      t.origin[k].ByDiscovery? && t.origin[k].discover == discover && t.origin[k].build == build
  }

  /** Whatever is new in t was resolved with this resolver callback. */
  ghost predicate AnsweredSince<K, W>(s: State<K, W>, t: State<K, W>, resolver: Resolver<K, W>) {
    forall k :: k in t.origin && k !in s.origin ==> t.origin[k].ByAnswers? && t.origin[k].resolver == resolver
  }

  lemma DiscoveredOn<K, W>(s: State<K, W>, t: State<K, W>, u: State<K, W>, discover: Discover<K>, build: BuildFn<K, W>)
    requires Grows(t, u) && DiscoveredSince(s, t, discover, build) && DiscoveredSince(t, u, discover, build)
    ensures DiscoveredSince(s, u, discover, build)
  {
  }

  lemma AnsweredOn<K, W>(s: State<K, W>, t: State<K, W>, u: State<K, W>, resolver: Resolver<K, W>)
    requires Grows(t, u) && AnsweredSince(s, t, resolver) && AnsweredSince(t, u, resolver)
    ensures AnsweredSince(s, u, resolver)
  {
  }

  lemma GrowsTransitive<K, W>(s: State<K, W>, t: State<K, W>, u: State<K, W>)
    requires Grows(s, t) && Grows(t, u)
    ensures Grows(s, u)
  {
  }

  /** The edges of one new node. */
  function EdgesTo(id: nat, ids: seq<nat>): seq<Edge> {
    seq(|ids|, i requires 0 <= i < |ids| => Edge(id, ids[i]))
  }

  /** Recording a new node for a key. */
  function Committed<K, W>(s: State<K, W>, key: K, o: Origin<K, W>, node: PendingNode<W>, ids: seq<nat>): State<K, W> {
    State(s.nodes + [node], s.edges + EdgesTo(|s.nodes|, ids), s.resolved[key := |s.nodes|], s.keyOf + [key], s.origin[key := o])
  }

  // ----- Edges of a new node -----

  lemma {:induction false} NewEdges(edges: seq<Edge>, id: nat, ids: seq<nat>, v: nat)
    ensures Dependencies(edges + EdgesTo(id, ids), v) == Dependencies(edges, v) + if v == id then ids else []
  {
    var all := edges + EdgesTo(id, ids);
    if ids == [] {
      assert all == edges;
    } else {
      var front := ids[..|ids| - 1];
      NewEdges(edges, id, front, v);
      assert all[..|all| - 1] == edges + EdgesTo(id, front);
      assert ids == front + [ids[|ids| - 1]];
    }
  }

  lemma {:induction false} NoEdgesYet(edges: seq<Edge>, count: nat, v: nat)
    requires Descending(edges, count) && v >= count
    ensures Dependencies(edges, v) == []
  {
    if edges != [] {
      NoEdgesYet(edges[..|edges| - 1], count, v);
    }
  }

  lemma IdsOfGrows<K>(keys: seq<K>, resolved: map<K, nat>, resolved': map<K, nat>)
    requires AllIn(keys, resolved)
    requires forall k :: k in resolved ==> k in resolved' && resolved'[k] == resolved[k]
    ensures AllIn(keys, resolved') && IdsOf(keys, resolved') == IdsOf(keys, resolved)
  {
  }

  // ----- Traces stay as they are while the history grows -----

  lemma FitsGrows<K, W>(resolver: Resolver<K, W>, key: K, answers: seq<Answer>, times: seq<nat>, h: seq<K>, h': seq<K>, i: nat)
    requires i < |answers| && |times| == |answers| + 1 && h <= h'
    requires Fits(resolver, key, answers, times, h, i)
    ensures Fits(resolver, key, answers, times, h', i)
  {
    hide At;
    AtGrows(h, h', times[i]);
    AtGrows(h, h', times[i + 1]);
  }

  lemma ConversationGrows<K, W>(resolver: Resolver<K, W>, key: K, answers: seq<Answer>, times: seq<nat>, h: seq<K>, h': seq<K>)
    requires Conversation(resolver, key, answers, times, h) && h <= h'
    ensures Conversation(resolver, key, answers, times, h')
  {
    hide Fits;
    forall i | 0 <= i < |answers|
      ensures Fits(resolver, key, answers, times, h', i)
    {
      FitsGrows(resolver, key, answers, times, h, h', i);
    }
  }

  lemma NamedGrows<K>(h: seq<K>, h': seq<K>, ids: seq<nat>, keys: seq<K>)
    requires Named(h, ids, keys) && h <= h'
    ensures Named(h', ids, keys)
  {
  }

  lemma PassesGrow<K>(discover: Discover<K>, key: K, passes: seq<Pass<K>>, h: seq<K>, h': seq<K>)
    requires Passes(discover, key, passes, h) && h <= h'
    ensures Passes(discover, key, passes, h')
  {
    hide At, Unresolved, FollowsPass, Named;
    forall i | 0 <= i < |passes|
      ensures RunsPass(discover, key, passes, h', i) && FollowsPass(passes, i)
    {
      assert RunsPass(discover, key, passes, h, i);
      AtGrows(h, h', passes[i].count);
      NamedGrows(h, h', passes[i].ids, passes[i].found);
    }
  }

  lemma ProducedGrows<K, W>(key: K, o: Origin<K, W>, node: PendingNode<W>, h: seq<K>, h': seq<K>)
    requires Produced(key, o, node, h) && h <= h'
    ensures Produced(key, o, node, h')
  {
    hide Conversation, Passes;
    match o
    case ByAnswers(resolver, answers, times) => ConversationGrows(resolver, key, answers, times, h, h');
    case ByDiscovery(discover, build, passes) => PassesGrow(discover, key, passes, h, h');
  }

  ghost predicate OriginsKept<K, W>(origin: map<K, Origin<K, W>>, origin': map<K, Origin<K, W>>) {
    forall k :: k in origin ==> k in origin' && origin'[k] == origin[k]
  }

  lemma AllBeganGrows<K, W>(h: seq<K>, h': seq<K>, origin: map<K, Origin<K, W>>, origin': map<K, Origin<K, W>>, n: nat, ids: seq<nat>)
    requires AllBeganThen(h, origin, n, ids) && h <= h' && OriginsKept(origin, origin')
    ensures AllBeganThen(h', origin', n, ids)
  {
    hide Clock, StartOf;
    forall j | 0 <= j < |ids|
      ensures BeganThen(h', origin', n, ids, j)
    {
      assert BeganThen(h, origin, n, ids, j);
    }
  }

  lemma PassesBeganGrow<K, W>(h: seq<K>, h': seq<K>, origin: map<K, Origin<K, W>>, origin': map<K, Origin<K, W>>, passes: seq<Pass<K>>)
    requires PassesBeganThen(h, origin, passes) && h <= h' && OriginsKept(origin, origin')
    ensures PassesBeganThen(h', origin', passes)
  {
    hide AllBeganThen, OriginsKept;
    forall i | 0 <= i < |passes|
      ensures AllBeganThen(h', origin', passes[i].count, passes[i].ids)
    {
      AllBeganGrows(h, h', origin, origin', passes[i].count, passes[i].ids);
    }
  }

  lemma AnswersBeganGrow<K, W>(h: seq<K>, h': seq<K>, origin: map<K, Origin<K, W>>, origin': map<K, Origin<K, W>>, answers: seq<Answer>, times: seq<nat>)
    requires AnswersBeganThen(h, origin, answers, times) && h <= h' && OriginsKept(origin, origin')
    ensures AnswersBeganThen(h', origin', answers, times)
  {
    hide StartOf;
  }

  lemma NestedBeganGrows<K, W>(h: seq<K>, h': seq<K>, origin: map<K, Origin<K, W>>, origin': map<K, Origin<K, W>>, o: Origin<K, W>)
    requires NestedBegan(h, origin, o) && h <= h' && OriginsKept(origin, origin')
    ensures NestedBegan(h', origin', o)
  {
    hide AnswersBeganThen, PassesBeganThen, OriginsKept;
    match o
    case ByAnswers(_, answers, times) => AnswersBeganGrow(h, h', origin, origin', answers, times);
    case ByDiscovery(_, _, passes) => PassesBeganGrow(h, h', origin, origin', passes);
  }

  // ----- Recording a node -----

  lemma CommitNumbers<K, W>(s: State<K, W>, key: K, o: Origin<K, W>, node: PendingNode<W>, ids: seq<nat>)
    requires Numbered(s) && Descending(s.edges, |s.nodes|) && s.origin.Keys == s.resolved.Keys
    requires key !in s.resolved && Below(ids, |s.nodes|)
    ensures var t := Committed(s, key, o, node, ids);
      && Numbered(t) && Descending(t.edges, |t.nodes|) && t.origin.Keys == t.resolved.Keys && Grows(s, t)
      && OriginsKept(s.origin, t.origin)
  {
  }

  /** Committing a key keeps the trace of every earlier key. */
  lemma CommitKeepsTrace<K, W>(s: State<K, W>, key: K, o: Origin<K, W>, node: PendingNode<W>, ids: seq<nat>, k: K)
    requires Sound(s) && key !in s.resolved && k in s.resolved
    ensures Traced(Committed(s, key, o, node, ids), k)
  {
    hide Produced, Dependencies, DirectKeys, NestedBegan, EndOf, Descending;
    var t := Committed(s, key, o, node, ids);
    assert Traced(s, k);
    assert s.keyOf <= t.keyOf;
    ProducedGrows(k, s.origin[k], s.nodes[s.resolved[k]], s.keyOf, t.keyOf);
    NestedBeganGrows(s.keyOf, t.keyOf, s.origin, t.origin, s.origin[k]);
    IdsOfGrows(DirectKeys(k, s.origin[k]), s.resolved, t.resolved);
    NewEdges(s.edges, |s.nodes|, ids, s.resolved[k]);
  }

  lemma CommitTraces<K, W>(s: State<K, W>, key: K, o: Origin<K, W>, node: PendingNode<W>, ids: seq<nat>)
    requires Numbered(s) && Descending(s.edges, |s.nodes|) && key !in s.resolved && key !in s.origin
    requires Produced(key, o, node, s.keyOf) && EndOf(o) == |s.nodes| && NestedBegan(s.keyOf, s.origin, o)
    requires Named(s.keyOf, ids, DirectKeys(key, o))
    ensures Traced(Committed(s, key, o, node, ids), key)
  {
    hide Produced, Dependencies, DirectKeys, NestedBegan, EndOf, Numbered, Named;
    var t := Committed(s, key, o, node, ids);
    assert s.keyOf <= t.keyOf;
    ProducedGrows(key, o, node, s.keyOf, t.keyOf);
    NestedBeganGrows(s.keyOf, t.keyOf, s.origin, t.origin, o);
    NamedIds(s, ids, DirectKeys(key, o));
    IdsOfGrows(DirectKeys(key, o), s.resolved, t.resolved);
    NewEdges(s.edges, |s.nodes|, ids, |s.nodes|);
    NoEdgesYet(s.edges, |s.nodes|, |s.nodes|);
  }

  /** Committing a key with the ids its trace asked for keeps the whole record sound. */
  lemma CommitSound<K, W>(s: State<K, W>, key: K, o: Origin<K, W>, node: PendingNode<W>, ids: seq<nat>)
    requires Sound(s) && key !in s.resolved
    requires Produced(key, o, node, s.keyOf) && EndOf(o) == |s.nodes| && NestedBegan(s.keyOf, s.origin, o)
    requires Named(s.keyOf, ids, DirectKeys(key, o))
    ensures Sound(Committed(s, key, o, node, ids)) && Grows(s, Committed(s, key, o, node, ids))
  {
    hide Produced, Dependencies, DirectKeys, Traced, Grows, Descending, NestedBegan, EndOf, Numbered;
    NamedBelow(s, ids, DirectKeys(key, o));
    CommitNumbers(s, key, o, node, ids);
    CommitTraces(s, key, o, node, ids);
    forall k | k in s.resolved
      ensures Traced(Committed(s, key, o, node, ids), k)
    {
      CommitKeepsTrace(s, key, o, node, ids, k);
    }
  }

  lemma NamedBelow<K, W>(s: State<K, W>, ids: seq<nat>, keys: seq<K>)
    requires Numbered(s) && Named(s.keyOf, ids, keys)
    ensures Below(ids, |s.nodes|)
  {
  }

  // ----- Extending a trace -----

  lemma ConversationFront<K, W>(resolver: Resolver<K, W>, key: K, answers: seq<Answer>, times: seq<nat>, h: seq<K>, n: nat)
    requires Conversation(resolver, key, answers, times, h) && n <= |answers|
    ensures Conversation(resolver, key, answers[..n], times[..n + 1], h)
  {
    hide At, Max;
    var before, until := answers[..n], times[..n + 1];
    forall i | 0 <= i < |before|
      ensures Fits(resolver, key, before, until, h, i)
    {
      assert Fits(resolver, key, answers, times, h, i);
      assert before[..i] == answers[..i];
    }
  }

  lemma {:induction false} ConversationIds<K, W>(resolver: Resolver<K, W>, key: K, answers: seq<Answer>, times: seq<nat>, h: seq<K>)
    requires Conversation(resolver, key, answers, times, h)
    ensures Named(h, Ids(answers), AskedKeys(resolver, key, answers))
    decreases |answers|
  {
    if answers != [] {
      var n := |answers| - 1;
      ConversationFront(resolver, key, answers, times, h, n);
      ConversationIds(resolver, key, answers[..n], times[..n + 1], h);
      assert Fits(resolver, key, answers, times, h, n);
    }
  }

  /** One more answer, after the history has grown. */
  lemma ConversationNext<K, W>(resolver: Resolver<K, W>, key: K, answers: seq<Answer>, times: seq<nat>, h: seq<K>, answer: Answer, n: nat, h': seq<K>)
    requires Conversation(resolver, key, answers, times, h) && h <= h' && times[|answers|] <= n <= |h'|
    requires match resolver(key, answers)
      case Ask(q) =>
        || (answer.Resolved? && answer.id < |h'| && h'[answer.id] == q && n == Max(times[|answers|], answer.id + 1))
        || (answer.Refused? && !answer.status.Success? && q !in At(h', n))
      case Query(q) => answer.Known? && n == times[|answers|] && (answer.isResolved <==> q in At(h', n))
      case Finish(_, _, _) => false
    ensures Conversation(resolver, key, answers + [answer], times + [n], h')
    ensures Ids(answers + [answer]) == if answer.Resolved? then Ids(answers) + [answer.id] else Ids(answers)
  {
    hide At, Max;
    var longer, later := answers + [answer], times + [n];
    assert longer[..|answers|] == answers;
    forall i | 0 <= i < |longer|
      ensures Fits(resolver, key, longer, later, h', i)
    {
      if i < |answers| {
        FitsGrows(resolver, key, answers, times, h, h', i);
        assert Fits(resolver, key, answers, times, h', i);
        assert longer[..i] == answers[..i];
      }
    }
  }

  /** The resolver asked for this key at that point and the answer was an id. */
  ghost predicate AskedAt<K, W>(resolver: Resolver<K, W>, key: K, answers: seq<Answer>, i: nat)
    requires i < |answers|
  {
    answers[i].Resolved? && resolver(key, answers[..i]).Ask?
  }

  /** Exactly the keys asked for and resolved, in the order and as often as the callback asked. */
  lemma {:induction false} AskedInOrder<K, W>(resolver: Resolver<K, W>, key: K, answers: seq<Answer>) returns (at: seq<nat>)
    ensures Rising(at, |answers|) && |at| == |AskedKeys(resolver, key, answers)|
    ensures forall k :: 0 <= k < |at| ==>
      AskedAt(resolver, key, answers, at[k]) && AskedKeys(resolver, key, answers)[k] == resolver(key, answers[..at[k]]).key
    ensures forall i :: 0 <= i < |answers| && AskedAt(resolver, key, answers, i) ==> i in at
  {
    at := [];
    if answers != [] {
      var n := |answers| - 1;
      var front := answers[..n];
      var before := AskedInOrder(resolver, key, front);
      RisingNext(before, n);
      forall i | 0 <= i < n
        ensures AskedAt(resolver, key, answers, i) == AskedAt(resolver, key, front, i) && answers[..i] == front[..i]
      {
        assert front[..i] == answers[..i];
      }
      at := if AskedAt(resolver, key, answers, n) then before + [n] else before;
    }
  }

  /** Exactly what the passes found, pass by pass. */
  lemma {:induction false} FoundInOrder<K>(before: seq<Pass<K>>, pass: Pass<K>, after: seq<Pass<K>>)
    ensures FoundKeys(before + [pass] + after) == FoundKeys(before) + pass.found + FoundKeys(after)
    ensures FoundKeys<K>([]) == []
    decreases |after|
  {
    var all := before + [pass] + after;
    if after == [] {
      assert all[..|all| - 1] == before;
    } else {
      var front := after[..|after| - 1];
      FoundInOrder(before, pass, front);
      assert all[..|all| - 1] == before + [pass] + front;
    }
  }

  /** Exactly the candidates not seen, in the order and as often as they were discovered. */
  lemma {:induction false} UnresolvedInOrder<K>(candidates: seq<K>, seen: set<K>) returns (at: seq<nat>)
    ensures Rising(at, |candidates|) && |at| == |Unresolved(candidates, seen)|
    ensures forall k :: 0 <= k < |at| ==> candidates[at[k]] !in seen && Unresolved(candidates, seen)[k] == candidates[at[k]]
    ensures forall i :: 0 <= i < |candidates| && candidates[i] !in seen ==> i in at
  {
    at := [];
    if candidates != [] {
      var n := |candidates| - 1;
      var before := UnresolvedInOrder(candidates[..n], seen);
      RisingNext(before, n);
      at := if candidates[n] in seen then before else before + [n];
      forall i | 0 <= i < |candidates| && candidates[i] !in seen
        ensures i in at
      {
        if i < n {
          assert candidates[..n][i] == candidates[i];
        }
      }
    }
  }

  lemma {:induction false} UnresolvedExactly<K>(candidates: seq<K>, seen: set<K>, d: K)
    ensures d in Unresolved(candidates, seen) <==> d in candidates && d !in seen
  {
    if candidates != [] {
      var front := candidates[..|candidates| - 1];
      UnresolvedExactly(front, seen, d);
      assert candidates == front + [candidates[|candidates| - 1]];
    }
  }

  lemma {:induction false} PassesIds<K>(discover: Discover<K>, key: K, passes: seq<Pass<K>>, h: seq<K>)
    requires Passes(discover, key, passes, h)
    ensures Named(h, FoundIds(passes), FoundKeys(passes))
    decreases |passes|
  {
    hide At, Unresolved, Clock;
    if passes != [] {
      PassesFront(discover, key, passes, h);
      PassesIds(discover, key, passes[..|passes| - 1], h);
      assert RunsPass(discover, key, passes, h, |passes| - 1);
    }
  }

  lemma PassesFront<K>(discover: Discover<K>, key: K, passes: seq<Pass<K>>, h: seq<K>)
    requires Passes(discover, key, passes, h) && passes != []
    ensures Passes(discover, key, passes[..|passes| - 1], h)
  {
    hide At, Unresolved, Clock, Named;
    var front := passes[..|passes| - 1];
    forall i | 0 <= i < |front|
      ensures RunsPass(discover, key, front, h, i) && FollowsPass(front, i)
    {
      assert RunsPass(discover, key, passes, h, i) && FollowsPass(passes, i);
    }
  }

  /** The time after these passes, if they began at a given time. */
  function TimeAfter<K>(passes: seq<Pass<K>>, from: nat): nat {
    if passes == [] then from else Clock(passes[|passes| - 1].count, passes[|passes| - 1].ids)
  }

  /** The passes began at that time, and each found something to resolve. */
  ghost predicate Ongoing<K>(discover: Discover<K>, key: K, passes: seq<Pass<K>>, h: seq<K>, from: nat) {
    && Passes(discover, key, passes, h)
    && (passes != [] ==> passes[0].count == from && passes[|passes| - 1].found != [])
    && TimeAfter(passes, from) <= |h|
  }

  /** What the next pass finds. */
  ghost function FindsNext<K>(discover: Discover<K>, key: K, passes: seq<Pass<K>>, h: seq<K>, from: nat): seq<K>
    requires TimeAfter(passes, from) <= |h|
  {
    var seen := At(h, TimeAfter(passes, from));
    Unresolved(discover(key, |passes|, seen), seen)
  }

  /** One more pass whose keys are all resolved, after the history has grown. */
  lemma PassesNext<K>(discover: Discover<K>, key: K, passes: seq<Pass<K>>, h: seq<K>, from: nat, ids: seq<nat>, h': seq<K>)
    requires Ongoing(discover, key, passes, h, from) && h <= h'
    requires Named(h', ids, FindsNext(discover, key, passes, h, from))
    ensures var next := Pass(TimeAfter(passes, from), FindsNext(discover, key, passes, h, from), ids);
      && Passes(discover, key, passes + [next], h')
      && (passes + [next])[0].count == from
      && FoundIds(passes + [next]) == FoundIds(passes) + ids
  {
    hide At, Unresolved, Clock, Named;
    PassesGrow(discover, key, passes, h, h');
    var n := TimeAfter(passes, from);
    AtGrows(h, h', n);
    var next := Pass(n, FindsNext(discover, key, passes, h, from), ids);
    var longer := passes + [next];
    assert longer[..|passes|] == passes;
    forall i | 0 <= i < |longer|
      ensures RunsPass(discover, key, longer, h', i) && FollowsPass(longer, i)
    {
      if i < |passes| {
        assert RunsPass(discover, key, passes, h', i) && FollowsPass(passes, i);
      }
    }
  }

  // ----- What discovery promises -----

  /** When the build callback runs, everything the last pass discovered is resolved. */
  lemma DiscoveryComplete<K>(discover: Discover<K>, key: K, passes: seq<Pass<K>>, h: seq<K>)
    requires Completed(discover, key, passes, h)
    ensures var last := |passes| - 1;
      && passes[last].count <= |h|
      && forall d :: d in discover(key, last, At(h, passes[last].count)) ==> d in At(h, passes[last].count)
  {
    hide At, Unresolved;
    var last := |passes| - 1;
    assert RunsPass(discover, key, passes, h, last);
    var seen := At(h, passes[last].count);
    forall d | d in discover(key, last, seen)
      ensures d in seen
    {
      UnresolvedExactly(discover(key, last, seen), seen, d);
    }
  }

  /** The i-th pass returned d while d was not resolved. */
  ghost predicate FoundAt<K>(discover: Discover<K>, key: K, passes: seq<Pass<K>>, h: seq<K>, i: nat, d: K)
    requires i < |passes| && passes[i].count <= |h|
  {
    d !in At(h, passes[i].count) && d in discover(key, i, At(h, passes[i].count))
  }

  lemma FoundInPass<K>(discover: Discover<K>, key: K, passes: seq<Pass<K>>, h: seq<K>, i: nat, d: K)
    requires Passes(discover, key, passes, h) && i < |passes|
    ensures passes[i].count <= |h|
    ensures d in passes[i].found <==> FoundAt(discover, key, passes, h, i, d)
  {
    hide At, Unresolved, Clock, Named;
    assert RunsPass(discover, key, passes, h, i);
    UnresolvedExactly(discover(key, i, At(h, passes[i].count)), At(h, passes[i].count), d);
  }

  lemma {:induction false} FoundInSome<K>(passes: seq<Pass<K>>, d: K)
    ensures d in FoundKeys(passes) <==> exists i :: 0 <= i < |passes| && d in passes[i].found
    decreases |passes|
  {
    if passes != [] {
      var front := passes[..|passes| - 1];
      FoundInSome(front, d);
      assert forall i :: 0 <= i < |front| ==> front[i] == passes[i];
    }
  }

  /**
    Exactly which discovered keys become inputs: those some pass returned that were resolved
    only after it ran. A key already resolved along another path is never recorded.
  */
  lemma DiscoveredInputs<K, W>(s: State<K, W>, key: K, d: K)
    requires Sound(s) && key in s.resolved && key in s.origin && s.origin[key].ByDiscovery?
    ensures var o := s.origin[key];
      d in DirectKeys(key, o) <==>
        d in s.resolved && exists i :: 0 <= i < |o.passes| && DiscoveredInTime(s, o, key, i, d)
  {
    hide At, Unresolved, Clock, FoundKeys, RunsPass, FollowsPass, Named, AllIn, IdsOf, Dependencies, PassesBeganThen;
    assert Traced(s, key);
    var o, h := s.origin[key], s.keyOf;
    FoundInSome(o.passes, d);
    if d in FoundKeys(o.passes) {
      var j :| 0 <= j < |FoundKeys(o.passes)| && FoundKeys(o.passes)[j] == d;
      InAllIn(FoundKeys(o.passes), s.resolved, j);
    }
    forall i | 0 <= i < |o.passes| && d in s.resolved
      ensures d in o.passes[i].found <==> DiscoveredInTime(s, o, key, i, d)
    {
      FoundInPass(o.discover, key, o.passes, h, i, d);
      MemoIsAt(s, o.passes[i].count);
    }
  }

  lemma InAllIn<K>(keys: seq<K>, resolved: map<K, nat>, j: nat)
    requires AllIn(keys, resolved) && j < |keys|
    ensures keys[j] in resolved
  {
  }

  /** The i-th pass returned d, which was resolved only after that pass ran. */
  ghost predicate DiscoveredInTime<K, W>(s: State<K, W>, o: Origin<K, W>, key: K, i: nat, d: K)
    requires o.ByDiscovery? && i < |o.passes| && d in s.resolved
  {
    && o.passes[i].count <= s.resolved[d] && o.passes[i].count <= |s.keyOf|
    && d in o.discover(key, i, At(s.keyOf, o.passes[i].count))
  }

  lemma {:induction false} PassesAdvance<K>(discover: Discover<K>, key: K, passes: seq<Pass<K>>, h: seq<K>, i: nat)
    requires Passes(discover, key, passes, h) && i < |passes|
    ensures passes[0].count <= passes[i].count <= |h|
  {
    hide At, Unresolved, Clock, Named;
    assert RunsPass(discover, key, passes, h, i);
    if i > 0 {
      PassesAdvance(discover, key, passes, h, i - 1);
      assert FollowsPass(passes, i);
      ClockAdvances(passes[i - 1].count, passes[i - 1].ids);
    }
  }

  /** Every pass sees at least the memo of the moment the first one ran. */
  lemma PassesSeeMore<K>(discover: Discover<K>, key: K, passes: seq<Pass<K>>, h: seq<K>, i: nat)
    requires Passes(discover, key, passes, h) && i < |passes|
    ensures passes[0].count <= passes[i].count <= |h|
    ensures At(h, passes[0].count) <= At(h, passes[i].count)
  {
    hide Passes, At;
    PassesAdvance(discover, key, passes, h, i);
    AtLater(h, passes[0].count, passes[i].count);
  }

  /** What was resolved before the discovery of a key began is not among its inputs. */
  lemma EarlierIsNoInput<K, W>(s: State<K, W>, key: K, d: K)
    requires Sound(s) && key in s.resolved && key in s.origin && s.origin[key].ByDiscovery?
    requires d in s.resolved && s.resolved[d] < StartOf(s.origin[key])
    ensures d !in DirectKeys(key, s.origin[key])
  {
    hide DirectKeys, Dependencies, IdsOf, AllIn, PassesBeganThen, Passes;
    assert Traced(s, key);
    var o := s.origin[key];
    DiscoveredInputs(s, key, d);
    forall i | 0 <= i < |o.passes|
      ensures !DiscoveredInTime(s, o, key, i, d)
    {
      PassesAdvance(o.discover, key, o.passes, s.keyOf, i);
    }
  }

  // ----- A sound record always builds -----

  lemma {:induction false} DescendingPath(edges: seq<Edge>, count: nat, p: seq<nat>, k: nat)
    requires Descending(edges, count) && Path(edges, p) && 1 <= k < |p|
    ensures p[k] < p[0]
  {
    assert Linked(edges, p, k - 1);
    if k > 1 {
      DescendingPath(edges, count, p, k - 1);
    }
  }

  lemma DescendingIsAcyclic(edges: seq<Edge>, count: nat)
    requires Descending(edges, count)
    ensures InRange(edges, count) && forall c :: !Cycle(edges, c)
  {
    forall c
      ensures !Cycle(edges, c)
    {
      if Cycle(edges, c) {
        DescendingPath(edges, count, c, |c| - 1);
      }
    }
  }
}
