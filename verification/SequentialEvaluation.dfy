/**
  The reference meaning of a graph: its nodes evaluated one after another in topological
  order, with failures propagated to every dependent.
*/
module SequentialEvaluation {
  import opened DependencyGraphs
  import opened GraphBuilder

  /** A type-erased result; `Empty` is the default-constructed one. */
  datatype Any<V> = Empty | Value(value: V)

  datatype Outcome<V> = Returns(result: Any<V>) | Throws(message: string)

  type Work<!V> = seq<Any<V>> -> Outcome<V>

  /** What becomes of a node: a result, its own exception, or a failure upstream. */
  datatype Verdict<V> = Done(result: Any<V>) | Threw(message: string) | Skipped {
    function Result(): Any<V> {
      if Done? then result else Empty
    }
  }

  function Deps<V>(g: DependencyGraph<Work<V>>, v: nat): seq<nat>
    requires v < |g.nodes|
  {
    g.nodes[v].dependencies
  }

  ghost predicate WellFormed<V>(g: DependencyGraph<Work<V>>) {
    && Topological(DependencyLists(g), g.order)
    && forall v :: 0 <= v < |g.nodes| ==> Below(Deps(g, v), |g.nodes|)
  }

  ghost predicate Judged<V>(ds: seq<nat>, m: map<nat, Verdict<V>>) {
    forall i :: 0 <= i < |ds| ==> ds[i] in m
  }

  ghost predicate AllDone<V>(ds: seq<nat>, m: map<nat, Verdict<V>>) {
    Judged(ds, m) && forall i :: 0 <= i < |ds| ==> m[ds[i]].Done?
  }

  ghost function Inputs<V>(ds: seq<nat>, m: map<nat, Verdict<V>>): seq<Any<V>>
    requires Judged(ds, m)
  {
    seq(|ds|, i requires 0 <= i < |ds| => m[ds[i]].Result())
  }

  /** The verdict on a node, given the verdicts on its dependencies. */
  ghost function Judge<V>(g: DependencyGraph<Work<V>>, v: nat, m: map<nat, Verdict<V>>): Verdict<V>
    requires v < |g.nodes| && Judged(Deps(g, v), m)
  {
    if !AllDone(Deps(g, v), m) then Skipped
    else
      match g.nodes[v].work(Inputs(Deps(g, v), m))
      case Returns(r) => Done(r)
      case Throws(message) => Threw(message)
  }

  /** Evaluating the first k nodes of the topological order, one after another. */
  ghost function Verdicts<V>(g: DependencyGraph<Work<V>>, k: nat): (m: map<nat, Verdict<V>>)
    requires WellFormed(g) && k <= |g.order|
    ensures forall i :: 0 <= i < k ==> g.order[i] in m
  {
    if k == 0 then map[]
    else
      var m := Verdicts(g, k - 1);
      EarlierJudged(g, k - 1, m);
      m[g.order[k - 1] := Judge(g, g.order[k - 1], m)]
  }

  lemma EarlierJudged<V>(g: DependencyGraph<Work<V>>, k: nat, m: map<nat, Verdict<V>>)
    requires WellFormed(g) && k < |g.order| && forall i :: 0 <= i < k ==> g.order[i] in m
    ensures g.order[k] < |g.nodes| && Judged(Deps(g, g.order[k]), m)
  {
    var v := g.order[k];
    assert DependencyLists(g)[v] == Deps(g, v);
    forall i | 0 <= i < |Deps(g, v)|
      ensures Deps(g, v)[i] in m
    {
      assert Deps(g, v)[i] in g.order[..k];
    }
  }

  /** The verdicts on the whole graph. */
  ghost function Evaluate<V>(g: DependencyGraph<Work<V>>): (m: map<nat, Verdict<V>>)
    requires WellFormed(g)
    ensures forall v :: 0 <= v < |g.nodes| ==> v in m
  {
    AllJudged(g, Verdicts(g, |g.order|));
    Verdicts(g, |g.order|)
  }

  lemma AllJudged<V>(g: DependencyGraph<Work<V>>, m: map<nat, Verdict<V>>)
    requires WellFormed(g) && forall i :: 0 <= i < |g.order| ==> g.order[i] in m
    ensures forall v :: 0 <= v < |g.nodes| ==> v in m
  {
    assert |DependencyLists(g)| == |g.nodes|;
    forall v | 0 <= v < |g.nodes|
      ensures v in m
    {
      var i := Position(g.order, v);
    }
  }

  lemma {:induction false} VerdictStable<V>(g: DependencyGraph<Work<V>>, j: nat, k: nat)
    requires WellFormed(g) && j < k <= |g.order|
    ensures Verdicts(g, k)[g.order[j]] == Verdicts(g, j + 1)[g.order[j]]
    decreases k
  {
    if k > j + 1 {
      VerdictStable(g, j, k - 1);
      assert g.order[j] != g.order[k - 1];
    }
  }

  lemma JudgeAgrees<V>(g: DependencyGraph<Work<V>>, v: nat, m: map<nat, Verdict<V>>, m': map<nat, Verdict<V>>)
    requires v < |g.nodes| && Judged(Deps(g, v), m) && Judged(Deps(g, v), m')
    requires forall i :: 0 <= i < |Deps(g, v)| ==> m[Deps(g, v)[i]] == m'[Deps(g, v)[i]]
    ensures Judge(g, v, m) == Judge(g, v, m')
  {
    assert Inputs(Deps(g, v), m) == Inputs(Deps(g, v), m');
  }

  /** The final verdicts satisfy their own equation at every node. */
  lemma EvaluateIsFixpoint<V>(g: DependencyGraph<Work<V>>, v: nat)
    requires WellFormed(g) && v < |g.nodes|
    ensures Judged(Deps(g, v), Evaluate(g)) && Evaluate(g)[v] == Judge(g, v, Evaluate(g))
  {
    var j := Position(g.order, v);
    var before := Verdicts(g, j);
    EarlierJudged(g, j, before);
    VerdictStable(g, j, |g.order|);
    assert DependencyLists(g)[v] == Deps(g, v);
    forall i | 0 <= i < |Deps(g, v)|
      ensures Deps(g, v)[i] in Evaluate(g) && before[Deps(g, v)[i]] == Evaluate(g)[Deps(g, v)[i]]
    {
      var d := Deps(g, v)[i];
      assert d in g.order[..j];
      var a :| 0 <= a < j && g.order[a] == d;
      VerdictStable(g, a, |g.order|);
      VerdictStable(g, a, j);
    }
    JudgeAgrees(g, v, before, Evaluate(g));
  }

  // ----- Failure propagation -----

  ghost predicate DependsStep<V>(g: DependencyGraph<Work<V>>, p: seq<nat>, i: nat)
    requires i < |p| - 1
  {
    p[i] < |g.nodes| && p[i + 1] in Deps(g, p[i])
  }

  /** A chain of direct dependencies. */
  ghost predicate DependencyPath<V>(g: DependencyGraph<Work<V>>, p: seq<nat>) {
    |p| >= 1 && p[0] < |g.nodes| && forall i :: 0 <= i < |p| - 1 ==> DependsStep(g, p, i)
  }

  lemma PathTail<V>(g: DependencyGraph<Work<V>>, p: seq<nat>)
    requires WellFormed(g) && DependencyPath(g, p) && |p| > 1
    ensures DependencyPath(g, p[1..]) && p[1] in Deps(g, p[0])
  {
    assert DependsStep(g, p, 0);
    var q := p[1..];
    forall i | 0 <= i < |q| - 1
      ensures DependsStep(g, q, i)
    {
      assert DependsStep(g, p, i + 1);
    }
  }

  /** Whatever depends, directly or not, on a node that failed is skipped. */
  lemma {:induction false} FailureSpreads<V>(g: DependencyGraph<Work<V>>, p: seq<nat>)
    requires WellFormed(g) && DependencyPath(g, p) && |p| > 1
    requires p[|p| - 1] < |g.nodes| && !Evaluate(g)[p[|p| - 1]].Done?
    ensures Evaluate(g)[p[0]].Skipped?
    decreases |p|
  {
    PathTail(g, p);
    var d := p[1];
    if |p| > 2 {
      FailureSpreads(g, p[1..]);
    }
    EvaluateIsFixpoint(g, p[0]);
    var i :| 0 <= i < |Deps(g, p[0])| && Deps(g, p[0])[i] == d;
    assert !Evaluate(g)[Deps(g, p[0])[i]].Done?;
  }

  /** Every node without a result has a chain of dependencies down to one that threw. */
  lemma {:induction false} FailureHasCause<V>(g: DependencyGraph<Work<V>>, v: nat) returns (p: seq<nat>)
    requires WellFormed(g) && v < |g.nodes| && !Evaluate(g)[v].Done?
    ensures DependencyPath(g, p) && p[0] == v && p[|p| - 1] < |g.nodes| && Evaluate(g)[p[|p| - 1]].Threw?
    decreases Position(g.order, v)
  {
    EvaluateIsFixpoint(g, v);
    if Evaluate(g)[v].Threw? {
      p := [v];
    } else {
      var i :| 0 <= i < |Deps(g, v)| && !Evaluate(g)[Deps(g, v)[i]].Done?;
      var d := Deps(g, v)[i];
      assert DependencyLists(g)[v] == Deps(g, v);
      DependencyEarlier(DependencyLists(g), g.order, v, d);
      var q := FailureHasCause(g, d);
      p := [v] + q;
      forall i | 0 <= i < |p| - 1
        ensures DependsStep(g, p, i)
      {
        if i > 0 {
          assert DependsStep(g, q, i - 1);
        }
      }
    }
  }

  /** A node that threw ran, so nothing it depends on, directly or not, failed. */
  lemma ThrowerHasNoFailedAncestor<V>(g: DependencyGraph<Work<V>>, p: seq<nat>)
    requires WellFormed(g) && DependencyPath(g, p) && |p| > 1 && p[|p| - 1] < |g.nodes|
    requires Evaluate(g)[p[0]].Threw?
    ensures Evaluate(g)[p[|p| - 1]].Done?
  {
    if !Evaluate(g)[p[|p| - 1]].Done? {
      FailureSpreads(g, p);
    }
  }
}
