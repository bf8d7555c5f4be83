/**
  The three graph components composed: keys are resolved, the record is frozen, and the graph
  is executed in parallel.
*/
module GraphPipeline {
  import opened DependencyGraphs
  import opened GraphBuilder
  import opened ResolutionTraces
  import opened SequentialEvaluation
  import Executor = GraphExecutor

  lemma FrozenIsWellFormed<V>(nodes: seq<PendingNode<Work<V>>>, edges: seq<Edge>, g: DependencyGraph<Work<V>>)
    requires Frozen(nodes, edges, g)
    ensures WellFormed(g)
  {
    hide IsLayering;
    var deps := DependencyLists(g);
    forall v | 0 <= v < |g.nodes|
      ensures Below(Deps(g, v), |g.nodes|)
    {
      assert deps[v] == Deps(g, v);
      assert v in g.order;
      var i := Position(g.order, v);
      forall j | 0 <= j < |deps[v]|
        ensures deps[v][j] < |g.nodes|
      {
        assert deps[v][j] in g.order[..i];
      }
    }
  }

  /** The key's own callback succeeded. */
  ghost predicate Succeeded<K, V>(key: K, o: Origin<K, Work<V>>) {
    match o
    case ByAnswers(resolver, answers, _) => resolver(key, answers).Finish? && resolver(key, answers).status.Success?
    case ByDiscovery(_, build, _) => build(key).status.Success?
  }

  /** The work the key's own callback produced. */
  ghost function OwnWork<K, V>(key: K, o: Origin<K, Work<V>>): Work<V>
    requires Succeeded(key, o)
  {
    match o
    case ByAnswers(resolver, answers, _) => resolver(key, answers).work
    case ByDiscovery(_, build, _) => build(key).work
  }

  /** The results of these keys, in order and with repeats. */
  ghost function KeyResults<K, V>(keys: seq<K>, resolved: map<K, nat>, m: map<nat, Verdict<V>>): seq<Any<V>>
    requires AllIn(keys, resolved) && forall i :: 0 <= i < |keys| ==> resolved[keys[i]] in m
  {
    seq(|keys|, i requires 0 <= i < |keys| => if m[resolved[keys[i]]].Done? then m[resolved[keys[i]]].result else Empty)
  }

  /**
    A key's verdict is determined by its own callback's work and by the verdicts on exactly the
    keys that callback resolved, in the order it resolved them.
  */
  ghost predicate KeyEquation<K, V>(s: State<K, Work<V>>, key: K, m: map<nat, Verdict<V>>) {
    && key in s.resolved && key in s.origin && s.resolved[key] in m
    && var keys := DirectKeys(key, s.origin[key]);
       && AllIn(keys, s.resolved) && (forall i :: 0 <= i < |keys| ==> s.resolved[keys[i]] in m)
       && Succeeded(key, s.origin[key])
       && m[s.resolved[key]] ==
            if exists i :: 0 <= i < |keys| && !m[s.resolved[keys[i]]].Done? then Skipped
            else
              match OwnWork(key, s.origin[key])(KeyResults(keys, s.resolved, m))
              case Returns(r) => Done(r)
              case Throws(message) => Threw(message)
  }

  lemma KeyDependencies<K, V>(s: State<K, Work<V>>, g: DependencyGraph<Work<V>>, key: K)
    requires Sound(s) && Frozen(s.nodes, s.edges, g) && key in s.resolved
    ensures key in s.origin && s.resolved[key] < |g.nodes| && AllIn(DirectKeys(key, s.origin[key]), s.resolved)
    ensures Deps(g, s.resolved[key]) == IdsOf(DirectKeys(key, s.origin[key]), s.resolved)
    ensures Succeeded(key, s.origin[key]) && OwnWork(key, s.origin[key]) == g.nodes[s.resolved[key]].work
  {
    hide Topological, IsLayering, Numbered, Descending, DirectKeys, Conversation, Passes, NestedBegan, EndOf;
    assert Traced(s, key);
  }

  /** Sequential evaluation of the frozen record satisfies the equation of every resolved key. */
  lemma EveryKeyEquation<K, V>(s: State<K, Work<V>>, g: DependencyGraph<Work<V>>, key: K)
    requires Sound(s) && Frozen(s.nodes, s.edges, g) && WellFormed(g) && key in s.resolved
    ensures KeyEquation(s, key, Evaluate(g))
  {
    hide Sound, Frozen, WellFormed, Evaluate, DirectKeys, Succeeded, OwnWork;
    var m := Evaluate(g);
    KeyDependencies(s, g, key);
    var id, keys := s.resolved[key], DirectKeys(key, s.origin[key]);
    EvaluateIsFixpoint(g, id);
    var ds := Deps(g, id);
    assert |ds| == |keys| && forall i :: 0 <= i < |keys| ==> ds[i] == s.resolved[keys[i]];
    assert Inputs(ds, m) == KeyResults(keys, s.resolved, m);
  }

  /** The delivered results of these keys, in order and with repeats. */
  ghost predicate Feeds<K, V>(inputs: seq<Any<V>>, keys: seq<K>, resolved: map<K, nat>, results: seq<Any<V>>) {
    && AllIn(keys, resolved) && |inputs| == |keys|
    && forall i :: 0 <= i < |keys| ==> resolved[keys[i]] < |results| && inputs[i] == results[resolved[keys[i]]]
  }

  /**
    End to end: whatever was resolved builds, and every interleaving of the executor runs the
    work of every resolved key on the delivered results of exactly the keys its callback
    resolved, in that order, and delivers what the work returns; a key whose work throws, or
    that resolved a failed key, fails and delivers an empty result.
  */
  lemma EveryRunSolvesEveryKey<K, V>(s: State<K, Work<V>>, g: DependencyGraph<Work<V>>, steps: seq<Executor.Step>, key: K)
    returns (inputs: seq<Any<V>>)
    requires Sound(s) && Frozen(s.nodes, s.edges, g) && WellFormed(g) && key in s.resolved
    requires Executor.Inv(g, Executor.Init(g)) && Executor.Legal(g, Executor.Init(g), steps)
    requires Executor.Finished(g, Executor.After(g, Executor.Init(g), steps))
    ensures KeyEquation(s, key, Evaluate(g)) && s.resolved[key] < |g.nodes|
    ensures key in s.origin
    ensures var t, keys, id := Executor.After(g, Executor.Init(g), steps), DirectKeys(key, s.origin[key]), s.resolved[key];
      && Feeds(inputs, keys, s.resolved, Executor.Results(g, t))
      && if exists i :: 0 <= i < |keys| && t.failed[s.resolved[keys[i]]] then t.failed[id] && Executor.Results(g, t)[id] == Empty
         else
           match OwnWork(key, s.origin[key])(inputs)
           case Returns(r) => !t.failed[id] && Executor.Results(g, t)[id] == r
           case Throws(_) => t.failed[id] && Executor.Results(g, t)[id] == Empty
  {
    hide Sound, Frozen, WellFormed, Evaluate, KeyEquation, DirectKeys, Succeeded, OwnWork;
    hide Executor.Legal, Executor.After, Executor.Finished, Executor.Results;
    hide Executor.SchedulerOk, Executor.NodesOk, Executor.RecordOk, Executor.Init;
    EveryKeyEquation(s, g, key);
    KeyDependencies(s, g, key);
    DepsBelow(g, s.resolved[key]);
    var keys, ds := DirectKeys(key, s.origin[key]), Deps(g, s.resolved[key]);
    var t := Executor.After(g, Executor.Init(g), steps);
    assert |ds| == |keys| && forall i :: 0 <= i < |keys| ==> ds[i] == s.resolved[keys[i]];
    inputs := seq(|ds|, i requires 0 <= i < |ds| => Executor.Results(g, t)[ds[i]]);
    Executor.FinishedSolves(g, steps, s.resolved[key], inputs);
    if i :| 0 <= i < |ds| && t.failed[ds[i]] {
      assert t.failed[s.resolved[keys[i]]];
    }
    if i :| 0 <= i < |keys| && t.failed[s.resolved[keys[i]]] {
      assert t.failed[ds[i]];
    }
  }

  lemma DepsBelow<V>(g: DependencyGraph<Work<V>>, v: nat)
    requires WellFormed(g) && v < |g.nodes|
    ensures Below(Deps(g, v), |g.nodes|)
  {
  }
}
